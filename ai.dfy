/** The text handling around the completion service: the language named in
    a prompt, the defaulting of a missing completion, and the extraction of
    a JSON text from a reply that may wrap it in a fenced code block. */
module Ai {
  import opened Basics
  import opened Text

  /** `language === 'hi' ? 'Hindi' : 'English'`. */
  function LanguageName(language: string): (name: string)
    ensures name == "Hindi" <==> language == "hi"
    ensures name != "Hindi" ==> name == "English"
  {
    if language == "hi" then "Hindi" else "English"
  }

  /** `content || fallback`: an absent or empty completion is replaced. */
  function ContentOr(content: Option<string>, fallback: string): (c: string)
    ensures content.Some? && content.value != "" ==> c == content.value
    ensures content.None? || content.value == "" ==> c == fallback
  {
    match content
    case Some(s) => if s != "" then s else fallback
    case None => fallback
  }

  const JsonOpen: string := "```json\n"
  const PlainOpen: string := "```\n"
  const Close: string := "\n```"

  /** The match of `open([\s\S]*?)\n```` that a regular-expression search
      finds: it starts at the first occurrence `p` of `open`, and its lazy
      group ends at the first closing fence `q` that starts at or after the
      end of that opening. */
  ghost predicate FirstMatch(c: string, open: string, p: int, q: int)
  {
    && OccursAt(c, open, p)
    && (forall p' :: 0 <= p' < p ==> !OccursAt(c, open, p'))
    && p + |open| <= q && OccursAt(c, Close, q)
    && (forall q' :: p + |open| <= q' < q ==> !OccursAt(c, Close, q'))
  }

  /** The first capture group of `c.match(open([\s\S]*?)\n```)`, or `None`
      when the search finds no match. */
  function FencedBody(c: string, open: string): (r: Option<string>)
    ensures r.None? <==> !exists p, q :: OccursAt(c, open, p) && p + |open| <= q && OccursAt(c, Close, q)
    ensures r.Some? ==> exists p, q :: FirstMatch(c, open, p, q) && r.value == c[p + |open|..q]
  {
    match IndexOf(c, open, 0)
    case None => None
    case Some(p) =>
      match IndexOf(c, Close, p + |open|)
      case None =>
        assert forall p', q :: OccursAt(c, open, p') && p' + |open| <= q ==> !OccursAt(c, Close, q) by {
          forall p', q | OccursAt(c, open, p') && p' + |open| <= q ensures !OccursAt(c, Close, q) {
            assert p <= p';
          }
        }
        None
      case Some(q) =>
        assert FirstMatch(c, open, p, q);
        Some(c[p + |open|..q])
  }

  /** The text handed to `JSON.parse`: the body of a ```` ```json ```` fence
      if there is one, else the body of a plain fence, else the whole
      content; then trimmed. */
  function ExtractJson(content: string): (r: string)
    ensures r != [] ==> !IsSpace(r[0]) && !IsSpace(r[|r| - 1])
    ensures FencedBody(content, JsonOpen).Some? ==> r == Trim(FencedBody(content, JsonOpen).value)
    ensures FencedBody(content, JsonOpen).None? && FencedBody(content, PlainOpen).Some? ==>
      r == Trim(FencedBody(content, PlainOpen).value)
    ensures FencedBody(content, JsonOpen).None? && FencedBody(content, PlainOpen).None? ==> r == Trim(content)
  {
    var body :=
      match FencedBody(content, JsonOpen)
      case Some(b) => b
      case None =>
        match FencedBody(content, PlainOpen)
        case Some(b) => b
        case None => content;
    Trim(body)
  }

  /** What `generateQuestions` parses, from the completion's content. */
  function QuestionsJson(content: Option<string>): (json: string)
    ensures json != [] ==> !IsSpace(json[0]) && !IsSpace(json[|json| - 1])
  {
    ExtractJson(ContentOr(content, "[]"))
  }

  /** What `evaluateAnswer` parses, from the completion's content. */
  function EvaluationJson(content: Option<string>): (json: string)
    ensures json != [] ==> !IsSpace(json[0]) && !IsSpace(json[|json| - 1])
  {
    ExtractJson(ContentOr(content, "{}"))
  }

  /** What `generateNotes` returns: the content, or the empty text. */
  function NotesText(content: Option<string>): (notes: string)
    ensures content.None? ==> notes == ""
    ensures content.Some? ==> notes == content.value
  {
    ContentOr(content, "")
  }

  /** A missing or empty completion parses as an empty array for questions
      and as an empty object for an evaluation. */
  lemma MissingContentFallback(content: Option<string>)
    requires content.None? || content == Some("")
    ensures QuestionsJson(content) == "[]"
    ensures EvaluationJson(content) == "{}"
  {
    NoFenceInShortText("[]");
    NoFenceInShortText("{}");
    TrimUnchanged("[]");
    TrimUnchanged("{}");
  }

  lemma NoFenceInShortText(c: string)
    requires |c| < |PlainOpen|
    ensures FencedBody(c, JsonOpen).None? && FencedBody(c, PlainOpen).None?
  {
  }

  lemma TrimUnchanged(c: string)
    requires c != [] && !IsSpace(c[0]) && !IsSpace(c[|c| - 1])
    ensures Trim(c) == c
  {
    assert SkipSpaces(c, 0) == 0;
    assert BackSpaces(c, 0, |c|) == |c|;
  }

  /** Questions and evaluations extract in the same way from any non-empty content. */
  lemma SameExtraction(c: string)
    requires c != ""
    ensures QuestionsJson(Some(c)) == EvaluationJson(Some(c)) == ExtractJson(c)
  {
  }

  /** A ```` ```json ```` fence wins even when a plain fence opens first:
      in `Example`, "```\n```json\n2\n```", the plain fence alone would capture
      "```json\n2", but the result is "2". */
  lemma JsonFenceWins()
    ensures FencedBody(Example, PlainOpen) == Some("```json\n2")
    ensures ExtractJson(Example) == "2"
  {
    ExampleOpenings();
    ExampleClosings();
    ExampleBodies();
    TrimUnchanged("2");
  }

  lemma ExampleBodies()
    ensures Example[4..13] == "```json\n2"
    ensures Example[12..13] == "2"
  {
  }

  const Example: string := "```\n```json\n2\n```"

  lemma ExampleOpenings()
    ensures IndexOf(Example, PlainOpen, 0) == Some(0)
    ensures IndexOf(Example, JsonOpen, 0) == Some(4)
  {
    var c := Example;
    assert OccursAt(c, PlainOpen, 0);
    assert OccursAt(c, JsonOpen, 4);
    forall j | 0 <= j < 4 ensures !OccursAt(c, JsonOpen, j) {
      assert c[j + 3] != 'j';
      assert JsonOpen[3] == 'j';
    }
    IndexOfAt(c, PlainOpen, 0, 0);
    IndexOfAt(c, JsonOpen, 0, 4);
  }

  lemma ExampleClosings()
    ensures IndexOf(Example, Close, 4) == Some(13)
    ensures IndexOf(Example, Close, 12) == Some(13)
  {
    var c := Example;
    assert OccursAt(c, Close, 13);
    forall j | 4 <= j < 13 ensures !OccursAt(c, Close, j) {
      assert Close[0] == '\n' && Close[1] == '`';
      if j == 11 {
        assert c[12] == '2';
        assert c[j..j + 4][1] == c[12];
      } else {
        assert c[j] != '\n';
        assert c[j..j + 4][0] == c[j];
      }
    }
    IndexOfAt(c, Close, 4, 13);
    IndexOfAt(c, Close, 12, 13);
  }

  /** `indexOf` answers the first occurrence at or after `from`. */
  lemma IndexOfAt(s: string, pat: string, from: nat, k: nat)
    requires from <= k && OccursAt(s, pat, k)
    requires forall j :: from <= j < k ==> !OccursAt(s, pat, j)
    ensures IndexOf(s, pat, from) == Some(k)
  {
  }
}
