/** The slide plan built from a set of notes: a title slide, then one slide
    per non-blank paragraph of the content, either a heading slide (for a
    paragraph that starts with `#`) or a numbered key-points slide. */
module Slides {
  import opened Basics
  import opened Text

  datatype Notes = Notes(title: string, board: string, classNum: nat, subject: string,
                         chapter: string, content: string)

  datatype Slide =
    | TitleSlide(title: string, subtitle: string)
    | HeadingSlide(heading: string, body: string)
    | KeyPointsSlide(title: string, points: string)

  /** `.filter(section => section.trim())`: the pieces whose trim is non-empty, in order. */
  function KeepNonBlank(pieces: seq<string>): (kept: seq<string>)
    ensures |kept| <= |pieces|
    ensures forall p :: p in kept ==> p in pieces && Trim(p) != ""
    ensures forall p :: p in pieces && Trim(p) != "" ==> p in kept
  {
    if pieces == [] then []
    else
      var rest := KeepNonBlank(pieces[1..]);
      assert pieces == [pieces[0]] + pieces[1..];
      if Trim(pieces[0]) != "" then [pieces[0]] + rest else rest
  }

  /** The filter keeps the order of the pieces: filtering a concatenation
      concatenates the filtered halves. */
  lemma {:induction false} KeepNonBlankConcat(a: seq<string>, b: seq<string>)
    ensures KeepNonBlank(a + b) == KeepNonBlank(a) + KeepNonBlank(b)
  {
    if a != [] {
      assert (a + b)[1..] == a[1..] + b;
      assert (a + b)[0] == a[0];
      KeepNonBlankConcat(a[1..], b);
    } else {
      assert a + b == b;
    }
  }

  /** `content.split('\n\n').filter(section => section.trim())`. */
  function Sections(content: string): (sections: seq<string>)
    ensures |sections| <= |Split(content, "\n\n")|
    ensures forall s :: s in sections <==> s in Split(content, "\n\n") && !Blank(s)
  {
    var pieces := Split(content, "\n\n");
    assert forall p :: Trim(p) == [] <==> Blank(p) by {
      forall p ensures Trim(p) == [] <==> Blank(p) {
        TrimEmptyIffBlank(p);
      }
    }
    KeepNonBlank(pieces)
  }

  /** The end of the run of `#` that starts at `i`. */
  function SkipHashes(s: string, i: nat): (j: nat)
    requires i <= |s|
    ensures i <= j <= |s|
    ensures forall k :: i <= k < j ==> s[k] == '#'
    ensures j < |s| ==> s[j] != '#'
    decreases |s| - i
  {
    if i < |s| && s[i] == '#' then SkipHashes(s, i + 1) else i
  }

  /** A text in the language of the pattern `#+\s*`: one or more `#`, then white space. */
  predicate HeadingMarker(m: string)
  {
    && m != [] && m[0] == '#'
    && (forall k :: 0 <= k < |m| ==> m[k] == '#' || IsSpace(m[k]))
    && (forall k :: 0 < k < |m| && m[k] == '#' ==> m[k - 1] == '#')
  }

  /** Replacing the anchored pattern `^#+\s*` by nothing: the longest prefix
      matching `#+\s*` is removed; a line that does not start with `#` is unchanged. */
  function StripHeadingMarker(line: string): (r: string)
    ensures |r| <= |line| && r == line[|line| - |r|..]
    ensures line != [] && line[0] == '#' ==>
      && HeadingMarker(line[..|line| - |r|])
      && (r != [] ==> !IsSpace(r[0]) && !(r[0] == '#' && line[|line| - |r| - 1] == '#'))
    ensures !(line != [] && line[0] == '#') ==> r == line
  {
    if line != [] && line[0] == '#' then
      var h := SkipHashes(line, 0);
      var w := SkipSpaces(line, h);
      assert line[..w][0] == '#';
      line[w..]
    else line
  }

  /** The slide for the section at position `index` among the kept sections. */
  function SectionSlide(section: string, index: nat): (slide: Slide)
    ensures slide.HeadingSlide? <==> |section| > 0 && section[0] == '#'
    ensures slide.KeyPointsSlide? <==> !slide.HeadingSlide?
    ensures slide.KeyPointsSlide? ==> slide.points == section
  {
    if |section| > 0 && section[0] == '#' then
      var lines := Split(section, "\n");
      HeadingSlide(StripHeadingMarker(lines[0]), Join(lines[1..], "\n"))
    else
      KeyPointsSlide("Key Points - " + NatToString(index + 1), section)
  }

  /** A headed section is its first line, then (when there are more lines)
      a line break and the body; the heading is that first line without its
      marker and never starts with white space. */
  lemma HeadingSlideParts(section: string, index: nat)
    requires |section| > 0 && section[0] == '#'
    ensures SectionSlide(section, index).HeadingSlide?
    ensures var lines := Split(section, "\n");
      var slide := SectionSlide(section, index);
      && section == (if |lines| == 1 then lines[0] else lines[0] + "\n" + slide.body)
      && (forall j :: !OccursAt(lines[0], "\n", j))
      && (slide.heading != [] ==> !IsSpace(slide.heading[0]))
      && exists m :: HeadingMarker(m) && lines[0] == m + slide.heading
  {
    SplitFirst(section, "\n");
    SplitPartsFree(section, "\n");
    FirstLineStart(section);
    MarkerThenHeading(Split(section, "\n")[0]);
  }

  /** The first line of a section keeps the section's first character, unless that is a line break. */
  lemma FirstLineStart(section: string)
    requires |section| > 0 && section[0] != '\n'
    ensures var first := Split(section, "\n")[0]; first != [] && first[0] == section[0]
  {
    SplitFirst(section, "\n");
    var first := Split(section, "\n")[0];
    assert section[..|first|][0] == section[0];
  }

  /** A line that starts with `#` is its marker followed by its heading text. */
  lemma MarkerThenHeading(line: string)
    requires line != [] && line[0] == '#'
    ensures exists m :: HeadingMarker(m) && line == m + StripHeadingMarker(line)
  {
    var h := StripHeadingMarker(line);
    var m := line[..|line| - |h|];
    assert line == m + h;
  }

  /** A section that does not start with `#` becomes a key-points slide
      numbered by its 1-based position among all kept sections, with the
      whole section as its points. */
  lemma KeyPointsSlideParts(section: string, index: nat)
    requires !(|section| > 0 && section[0] == '#')
    ensures SectionSlide(section, index) == KeyPointsSlide("Key Points - " + NatToString(index + 1), section)
    ensures DigitsValue(NatToString(index + 1)) == index + 1
  {
  }

  /** Three line breaks before a heading: the split cuts at the first two,
      so the heading's section starts with the third and becomes a
      key-points slide, not a heading slide. */
  lemma TripleBreakExample()
    ensures Split("x\n\n\n# H", "\n\n") == ["x", "\n# H"]
    ensures SectionSlide("\n# H", 1).KeyPointsSlide?
  {
    var s, sep := "x\n\n\n# H", "\n\n";
    assert s[0..2] != sep by {
      assert s[0..2][0] == 'x';
    }
    assert s[1..3] == sep;
    assert IndexOf(s, sep, 1) == Some(1);
    assert IndexOf(s, sep, 0) == Some(1);
    var t := s[3..];
    assert t == "\n# H";
    assert t[0..2] != sep by {
      assert t[0..2][1] == '#';
    }
    assert t[1..3] != sep by {
      assert t[1..3][0] == '#';
    }
    assert t[2..4] != sep by {
      assert t[2..4][0] == ' ';
    }
    assert IndexOf(t, sep, 3) == None;
    assert IndexOf(t, sep, 2) == None;
    assert IndexOf(t, sep, 1) == None;
    assert IndexOf(t, sep, 0) == None;
    assert Split(t, sep) == [t];
    assert s[..1] == "x";
    assert Split(s, sep) == [s[..1]] + Split(t, sep);
  }

  /** The title slide: the chapter, then "board - Class n - subject". */
  function TitleSlideOf(notes: Notes): Slide
  {
    TitleSlide(notes.chapter, notes.board + " - Class " + NatToString(notes.classNum) + " - " + notes.subject)
  }

  /** One slide per kept section, numbered by its position. */
  function SectionSlides(sections: seq<string>): (slides: seq<Slide>)
    ensures |slides| == |sections|
    ensures forall i :: 0 <= i < |sections| ==> slides[i] == SectionSlide(sections[i], i)
  {
    seq(|sections|, i requires 0 <= i < |sections| => SectionSlide(sections[i], i))
  }

  /** The slides of a set of notes: the title slide, then one slide per kept section. */
  function Plan(notes: Notes): seq<Slide>
  {
    [TitleSlideOf(notes)] + SectionSlides(Sections(notes.content))
  }

  /** The deck opens with the title slide, whose subtitle reads
      "board - Class n - subject", and then has one slide per non-blank
      paragraph, in order, each a heading or a key-points slide. */
  lemma PlanShape(notes: Notes)
    ensures var plan, sections := Plan(notes), Sections(notes.content);
      && |plan| == 1 + |sections|
      && plan[0] == TitleSlide(notes.chapter, notes.board + " - Class " + NatToString(notes.classNum) + " - " + notes.subject)
      && (forall i :: 0 <= i < |sections| ==> plan[i + 1] == SectionSlide(sections[i], i))
      && (forall i :: 1 <= i < |plan| ==> plan[i].HeadingSlide? || plan[i].KeyPointsSlide?)
  {
  }

  /** `generatePPTFromNotes` without the rendering: one `addSlide` per step. */
  method GenerateSlides(notes: Notes) returns (slides: seq<Slide>)
    ensures slides == Plan(notes)
  {
    slides := [TitleSlideOf(notes)];
    var sections := Sections(notes.content);
    ghost var plan := [TitleSlideOf(notes)] + SectionSlides(sections);
    var index := 0;
    while index < |sections|
      invariant 0 <= index <= |sections|
      invariant slides == plan[..index + 1]
    {
      var slide := SectionSlide(sections[index], index);
      assert slide == plan[index + 1];
      SplitAt(plan, index + 1);
      slides := slides + [slide];
      index := index + 1;
    }
    assert plan[..index + 1] == plan;
  }
}
