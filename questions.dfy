/** Question-paper bookkeeping: the total marks of a generated paper, the
    defaults filled in when it is created, the schema checks its save
    enforces, and the paper store with its listing, lookup by id and
    owner-checked deletion. */
module Questions {
  import opened Basics
  import Pagination
  import Ai

  /** A generated question; `marks` and `bloomLevel` are absent when the
      completion left them out. */
  datatype Question = Question(kind: string, text: string, options: seq<string>, answer: string,
                               marks: Option<int>, bloomLevel: Option<string>)

  /** `q.marks || 0`. */
  function MarksOrZero(q: Question): int
  {
    q.marks.GetOr(0)
  }

  /** `questions.reduce((sum, q) => sum + (q.marks || 0), 0)`: a left fold. */
  function TotalMarks(qs: seq<Question>): (total: int)
    ensures (forall k :: 0 <= k < |qs| ==> MarksOrZero(qs[k]) >= 0) ==> total >= 0
  {
    if qs == [] then 0 else TotalMarks(qs[..|qs| - 1]) + MarksOrZero(qs[|qs| - 1])
  }

  lemma TotalMarksOne(q: Question)
    ensures TotalMarks([q]) == MarksOrZero(q)
  {
    assert [q][..0] == [];
  }

  /** The total of two runs of questions is the sum of their totals. */
  lemma {:induction false} TotalMarksConcat(a: seq<Question>, b: seq<Question>)
    ensures TotalMarks(a + b) == TotalMarks(a) + TotalMarks(b)
    decreases |b|
  {
    if b == [] {
      assert a + b == a;
    } else {
      var n := |b| - 1;
      assert (a + b)[..|a + b| - 1] == a + b[..n];
      assert (a + b)[|a + b| - 1] == b[n];
      TotalMarksConcat(a, b[..n]);
    }
  }

  /** A question without marks adds nothing to the total, wherever it stands. */
  lemma UnmarkedAddsNothing(a: seq<Question>, q: Question, b: seq<Question>)
    requires q.marks.None?
    ensures TotalMarks(a + [q] + b) == TotalMarks(a + b)
  {
    TotalMarksConcat(a + [q], b);
    TotalMarksConcat(a, [q]);
    TotalMarksConcat(a, b);
    TotalMarksOne(q);
  }

  /** The total does not depend on the order of the questions. */
  lemma {:induction false} TotalMarksPermutation(qs: seq<Question>, ps: seq<Question>)
    requires multiset(qs) == multiset(ps)
    ensures TotalMarks(qs) == TotalMarks(ps)
    decreases |qs|
  {
    if qs == [] {
      assert |ps| == |multiset(ps)| == 0;
    } else {
      var n := |qs| - 1;
      var q := qs[n];
      assert q in multiset(ps);
      var i :| 0 <= i < |ps| && ps[i] == q;
      MultisetRemove(qs, ps, i);
      TotalMarksPermutation(qs[..n], ps[..i] + ps[i + 1..]);
      SplitAt(ps, i);
      TotalMarksConcat(ps[..i] + [q], ps[i + 1..]);
      TotalMarksConcat(ps[..i], [q]);
      TotalMarksConcat(ps[..i], ps[i + 1..]);
      TotalMarksOne(q);
    }
  }

  /** When every question carries at least one mark, as the question schema
      demands, the paper has at least as many marks as questions. */
  lemma {:induction false} MarkedTotalAtLeastCount(qs: seq<Question>)
    requires forall k :: 0 <= k < |qs| ==> qs[k].marks.Some? && qs[k].marks.value >= 1
    ensures TotalMarks(qs) >= |qs|
  {
    if qs != [] {
      MarkedTotalAtLeastCount(qs[..|qs| - 1]);
    }
  }

  const DefaultLanguage := "en"
  const DefaultDifficulty := "medium"
  /** Three hours, in minutes. */
  const DefaultDuration := 180
  const MinClass := 6
  const MaxClass := 12
  const QuestionKinds: set<string> := {"mcq", "short", "long"}
  const Difficulties: set<string> := {"easy", "medium", "hard"}
  const DefaultBloomLevel := "understand"
  const BloomLevels: set<string> := {"remember", "understand", "apply", "analyze", "evaluate", "create"}

  /** The question as the schema stores it: an absent Bloom level takes the
      default, and nothing else changes. */
  function WithDefaultBloom(q: Question): (r: Question)
    ensures r.bloomLevel.Some?
    ensures q.bloomLevel.Some? ==> r == q
    ensures q.bloomLevel.None? ==> r.bloomLevel == Some(DefaultBloomLevel) && r.(bloomLevel := None) == q
  {
    q.(bloomLevel := Some(q.bloomLevel.GetOr(DefaultBloomLevel)))
  }

  /** The questions as stored, in their generated order. */
  function SavedQuestions(qs: seq<Question>): (rs: seq<Question>)
    ensures |rs| == |qs| && forall k :: 0 <= k < |qs| ==> rs[k] == WithDefaultBloom(qs[k])
  {
    seq(|qs|, k requires 0 <= k < |qs| => WithDefaultBloom(qs[k]))
  }

  /** Filling in defaults keeps every question's marks, so the total computed
      from the generated questions is the total of the stored ones. */
  lemma {:induction false} SavedQuestionsTotal(qs: seq<Question>)
    ensures TotalMarks(SavedQuestions(qs)) == TotalMarks(qs)
  {
    if qs != [] {
      var n := |qs| - 1;
      assert SavedQuestions(qs)[..n] == SavedQuestions(qs[..n]);
      SavedQuestionsTotal(qs[..n]);
    }
  }

  /** The body of a creation request; `difficulty` and `language` may be absent. */
  datatype PaperRequest = PaperRequest(board: string, classNum: int, subject: string, chapter: string,
                                       difficulty: Option<string>, language: Option<string>)

  /** `language || 'en'`: the language handed to question generation. */
  function PromptLanguage(req: PaperRequest): (language: string)
    ensures req.language.Some? && req.language.value != "" ==> language == req.language.value
    ensures req.language.None? || req.language.value == "" ==> language == DefaultLanguage
  {
    match req.language
    case Some(l) => if l != "" then l else DefaultLanguage
    case None => DefaultLanguage
  }

  /** Questions are asked for in Hindi exactly when the request says "hi";
      a request without a language gets English. */
  lemma PromptLanguageName(req: PaperRequest)
    ensures Ai.LanguageName(PromptLanguage(req)) == "Hindi" <==> req.language == Some("hi")
    ensures req.language.None? ==> Ai.LanguageName(PromptLanguage(req)) == "English"
  {
  }

  datatype QuestionPaper = QuestionPaper(id: nat, teacherId: nat, board: string, classNum: int, subject: string,
                                         chapter: string, difficulty: string, questions: seq<Question>,
                                         totalMarks: int, duration: int, createdAt: int)

  /** The document `createQuestionPaper` builds before saving it. */
  function NewPaper(id: nat, teacherId: nat, req: PaperRequest, questions: seq<Question>, now: int): QuestionPaper
  {
    QuestionPaper(id, teacherId, req.board, req.classNum, req.subject, req.chapter,
                  req.difficulty.GetOr(DefaultDifficulty), SavedQuestions(questions), TotalMarks(questions),
                  DefaultDuration, now)
  }

  /** What the question schema's validators accept: a known type, non-empty
      question and answer texts, marks present and at least 1, and a Bloom
      level, when there is one, from the six known ones. */
  predicate QuestionValid(q: Question)
  {
    && q.kind in QuestionKinds && q.text != "" && q.answer != "" && q.marks.Some? && q.marks.value >= 1
    && (q.bloomLevel.None? || q.bloomLevel.value in BloomLevels)
  }

  /** What the paper schema's validators accept on save. */
  predicate PaperValid(p: QuestionPaper)
  {
    && p.board != "" && p.subject != "" && p.chapter != ""
    && MinClass <= p.classNum <= MaxClass
    && p.difficulty in Difficulties
    && forall k :: 0 <= k < |p.questions| ==> QuestionValid(p.questions[k])
  }

  /** A paper that passes validation has the default duration, the summed
      marks of its questions and at least one mark per question; a request
      without a difficulty gets the medium one, and every stored question
      has a Bloom level. */
  lemma NewPaperFacts(id: nat, teacherId: nat, req: PaperRequest, questions: seq<Question>, now: int)
    ensures var p := NewPaper(id, teacherId, req, questions, now);
      && p.duration == 180 && p.totalMarks == TotalMarks(questions) && p.totalMarks == TotalMarks(p.questions)
      && (req.difficulty.None? ==> p.difficulty == "medium")
      && |p.questions| == |questions|
      && (forall k :: 0 <= k < |p.questions| ==> p.questions[k].bloomLevel.Some?)
      && (PaperValid(p) ==> p.totalMarks >= |questions|)
  {
    var p := NewPaper(id, teacherId, req, questions, now);
    SavedQuestionsTotal(questions);
    if PaperValid(p) {
      assert forall k :: 0 <= k < |questions| ==> QuestionValid(p.questions[k]);
      MarkedTotalAtLeastCount(p.questions);
    }
  }

  /** What every stored paper satisfies: it is keyed by its own id, that id
      was handed out already, it passed validation, and it holds the
      creation defaults. */
  ghost predicate StoreInvariant(papers: map<nat, QuestionPaper>, nextId: nat)
  {
    forall id :: id in papers ==>
      && id < nextId && papers[id].id == id && PaperValid(papers[id])
      && papers[id].duration == DefaultDuration && papers[id].totalMarks == TotalMarks(papers[id].questions)
      && forall k :: 0 <= k < |papers[id].questions| ==> papers[id].questions[k].bloomLevel.Some?
  }

  /** Every stored paper lasts three hours, is for a class from 6 to 12, has
      at least as many marks as questions, and gives each question a known
      Bloom level. */
  lemma StoredPaperFacts(papers: map<nat, QuestionPaper>, nextId: nat, id: nat)
    requires StoreInvariant(papers, nextId) && id in papers
    ensures papers[id].duration == 180
    ensures 6 <= papers[id].classNum <= 12
    ensures papers[id].totalMarks >= |papers[id].questions|
    ensures forall k :: 0 <= k < |papers[id].questions| ==>
      papers[id].questions[k].bloomLevel.Some? && papers[id].questions[k].bloomLevel.value in BloomLevels
  {
    var qs := papers[id].questions;
    assert forall k :: 0 <= k < |qs| ==> QuestionValid(qs[k]);
    MarkedTotalAtLeastCount(qs);
  }

  /** The ids below `n` of the papers `teacher` owns, newest (highest id) first. */
  function OwnedIds(papers: map<nat, QuestionPaper>, teacher: nat, n: nat): (ids: seq<nat>)
    ensures forall id :: id in ids <==> id < n && id in papers && papers[id].teacherId == teacher
    ensures forall i, j :: 0 <= i < j < |ids| ==> ids[i] > ids[j]
  {
    if n == 0 then []
    else
      var rest := OwnedIds(papers, teacher, n - 1);
      if n - 1 in papers && papers[n - 1].teacherId == teacher then
        assert forall k :: 0 <= k < |rest| ==> rest[k] in rest;
        [n - 1] + rest
      else rest
  }

  /** The set of ids of the papers `teacher` owns below `n`. */
  ghost function OwnedSet(papers: map<nat, QuestionPaper>, teacher: nat, n: nat): set<nat>
  {
    set id | id in papers && id < n && papers[id].teacherId == teacher
  }

  /** `countDocuments({ teacher_id })`: the listing's count is the number of
      papers the teacher owns. */
  lemma OwnedCount(papers: map<nat, QuestionPaper>, teacher: nat, n: nat)
    ensures |OwnedIds(papers, teacher, n)| == |OwnedSet(papers, teacher, n)|
  {
    var ids := OwnedIds(papers, teacher, n);
    forall id ensures id in OwnedSet(papers, teacher, n) <==> id in ids {
    }
    assert OwnedSet(papers, teacher, n) == Elements(ids);
    assert forall i, j :: 0 <= i < j < |ids| ==> ids[i] != ids[j];
    DistinctCard(ids);
  }

  /** A page of a newest-first list of ids is itself newest first. */
  lemma PageOfIds(ids: seq<nat>, page: int, limit: int)
    requires limit > 0 && forall i, j :: 0 <= i < j < |ids| ==> ids[i] > ids[j]
    requires Pagination.PageOf(ids, page, limit).Some?
    ensures var pageIds := Pagination.PageOf(ids, page, limit).value;
      && (forall k :: 0 <= k < |pageIds| ==> pageIds[k] in ids)
      && (forall i, j :: 0 <= i < j < |pageIds| ==> pageIds[i] > pageIds[j])
  {
    var pageIds := Pagination.PageOf(ids, page, limit).value;
    var skip := Pagination.Skip(page, limit);
    assert forall k :: 0 <= k < |pageIds| ==> pageIds[k] == ids[skip + k];
  }

  /** The stored papers with the given ids, in that order. */
  function PapersOf(papers: map<nat, QuestionPaper>, ids: seq<nat>): (ps: seq<QuestionPaper>)
    requires forall k :: 0 <= k < |ids| ==> ids[k] in papers
    ensures |ps| == |ids| && forall k :: 0 <= k < |ids| ==> ps[k] == papers[ids[k]]
  {
    seq(|ids|, k requires 0 <= k < |ids| => papers[ids[k]])
  }

  /** The response body of `getQuestionPapers`. */
  datatype PaperListing = PaperListing(questionPapers: seq<QuestionPaper>, pagination: Pagination.PageInfo)

  /** The paper collection: papers by id, and the next id to hand out. */
  class PaperStore {
    var papers: map<nat, QuestionPaper>
    var nextId: nat

    ghost predicate Valid()
      reads this
    {
      StoreInvariant(papers, nextId)
    }

    constructor()
      ensures Valid() && papers == map[] && nextId == 0
    {
      papers := map[];
      nextId := 0;
    }

    /** `createQuestionPaper` for `teacherId`, given the request, the
        generated questions (`None` when generation failed) and the clock.
        The save rejects a paper the schema refuses, and the handler answers 500. */
    method Create(teacherId: nat, req: PaperRequest, generated: Option<seq<Question>>, now: int)
      returns (r: Response<QuestionPaper>)
      requires Valid()
      modifies this
      ensures Valid()
      ensures !r.NotFound?
      ensures r.Ok? <==> generated.Some? && PaperValid(NewPaper(old(nextId), teacherId, req, generated.value, now))
      ensures r.Ok? ==> && r.body == NewPaper(old(nextId), teacherId, req, generated.value, now)
                        && old(nextId) !in old(papers) && papers == old(papers)[old(nextId) := r.body]
                        && r.body.duration == 180 && r.body.totalMarks >= |r.body.questions|
      ensures !r.Ok? ==> papers == old(papers)
    {
      if generated.None? {
        return ServerError;
      }
      var paper := NewPaper(nextId, teacherId, req, generated.value, now);
      if !PaperValid(paper) {
        return ServerError;
      }
      NewPaperFacts(nextId, teacherId, req, generated.value, now);
      papers := papers[nextId := paper];
      nextId := nextId + 1;
      r := Ok(paper);
    }

    /** `getQuestionPaperById`: any paper by its id, whoever owns it. */
    function GetById(id: nat): (r: Response<QuestionPaper>)
      reads this
      requires Valid()
      ensures !r.ServerError?
      ensures r.NotFound? <==> id !in papers
      ensures r.Ok? ==> id in papers && r.body == papers[id] && r.body.id == id
    {
      if id in papers then Ok(papers[id]) else NotFound
    }

    /** `getQuestionPapers` for `teacherId`: the requested page of the
        teacher's papers, newest first, and the pagination block. */
    function ListPapers(teacherId: nat, page: Option<int>, limit: Option<int>): (r: Response<PaperListing>)
      reads this
      requires Valid()
      requires limit.GetOr(Pagination.DefaultLimit) > 0
      ensures !r.NotFound?
      ensures r.ServerError? <==> page.GetOr(Pagination.DefaultPage) < 1
      ensures r.Ok? ==> r.body.pagination == Pagination.Info(|OwnedSet(papers, teacherId, nextId)|, page, limit)
      ensures r.Ok? ==> |r.body.questionPapers| <= r.body.pagination.limit
      ensures r.Ok? ==> forall k :: 0 <= k < |r.body.questionPapers| ==>
        var p := r.body.questionPapers[k]; p.id in papers && papers[p.id] == p && p.teacherId == teacherId
      ensures r.Ok? ==> forall i, j :: 0 <= i < j < |r.body.questionPapers| ==>
        r.body.questionPapers[i].id > r.body.questionPapers[j].id
      ensures r.Ok? ==> var pageIds := Pagination.PageOf(OwnedIds(papers, teacherId, nextId),
                                                         page.GetOr(Pagination.DefaultPage),
                                                         limit.GetOr(Pagination.DefaultLimit));
        && pageIds.Some? && |r.body.questionPapers| == |pageIds.value|
        && forall k :: 0 <= k < |pageIds.value| ==> r.body.questionPapers[k].id == pageIds.value[k]
    {
      var ids := OwnedIds(papers, teacherId, nextId);
      OwnedCount(papers, teacherId, nextId);
      var l := limit.GetOr(Pagination.DefaultLimit);
      match Pagination.PageOf(ids, page.GetOr(Pagination.DefaultPage), l)
      case None => ServerError
      case Some(pageIds) =>
        PageOfIds(ids, page.GetOr(Pagination.DefaultPage), l);
        var items := PapersOf(papers, pageIds);
        assert forall k :: 0 <= k < |items| ==> items[k].id == pageIds[k];
        Ok(PaperListing(items, Pagination.Info(|ids|, page, limit)))
    }

    /** Paging through the listing shows every paper the teacher owns: the
        `k`-th newest is on page `k / limit + 1`, one of the reported pages,
        at position `k % limit`. */
    lemma ListingShowsEveryPaper(teacherId: nat, limit: int, k: int)
      requires Valid() && limit > 0
      requires 0 <= k < |OwnedIds(papers, teacherId, nextId)|
      ensures var r := ListPapers(teacherId, Some(k / limit + 1), Some(limit));
        && r.Ok? && k / limit + 1 <= r.body.pagination.pages
        && k % limit < |r.body.questionPapers|
        && r.body.questionPapers[k % limit].id == OwnedIds(papers, teacherId, nextId)[k]
    {
      OwnedCount(papers, teacherId, nextId);
      Pagination.ItemOnItsPage(OwnedIds(papers, teacherId, nextId), limit, k);
    }

    /** `deleteQuestionPaper`: the paper goes only when both its id and its
        owner match; otherwise the answer is 404 and nothing changes. */
    method Delete(id: nat, teacherId: nat) returns (r: Response<string>)
      requires Valid()
      modifies this
      ensures Valid()
      ensures r.Ok? <==> id in old(papers) && old(papers)[id].teacherId == teacherId
      ensures r.Ok? ==> papers == old(papers) - {id} && r.body == "Question paper deleted successfully"
      ensures !r.Ok? ==> r.NotFound? && papers == old(papers)
      ensures nextId == old(nextId)
    {
      if id in papers && papers[id].teacherId == teacherId {
        papers := papers - {id};
        r := Ok("Question paper deleted successfully");
      } else {
        r := NotFound;
      }
    }
  }
}
