/** Student performance records and the analytics computed from them: the
    mean percentage, topic-wise totals grouped by topic name, the topics
    ranked by percentage (strong and weak), and the recent-progress list;
    plus the filtered, paginated record listing. */
module Performance {
  import opened Basics
  import Pagination

  /** A creation timestamp, carried through unchanged. */
  datatype Date = Date(millis: int)

  datatype TopicEntry = TopicEntry(topic: string, marks: real, total: real)

  datatype PerformanceRecord = PerformanceRecord(
    studentId: string,
    subject: string,
    testName: string,
    marksObtained: real,
    totalMarks: real,
    topics: seq<TopicEntry>,
    feedback: string,
    createdAt: Date)

  /** The running `{ marks, total, count }` value kept per topic name. */
  datatype Tally = Tally(marks: real, total: real, count: nat)

  const NoTally := Tally(0.0, 0.0, 0)

  function Plus(a: Tally, b: Tally): Tally
  {
    Tally(a.marks + b.marks, a.total + b.total, a.count + b.count)
  }

  function EntryTally(e: TopicEntry): Tally
  {
    Tally(e.marks, e.total, 1)
  }

  /** One entry of the insertion-ordered topic map. */
  datatype TopicAccum = TopicAccum(topic: string, tally: Tally)

  datatype TopicScore = TopicScore(topic: string, percentage: real)

  datatype ProgressPoint = ProgressPoint(date: Date, testName: string, percentage: real)

  datatype Analytics = Analytics(
    studentId: string,
    totalTests: nat,
    averagePercentage: real,
    strongTopics: seq<TopicScore>,
    weakTopics: seq<TopicScore>,
    progress: seq<ProgressPoint>)

  /** Every record has a positive total, and so does the summed total of
      every topic name, so that no percentage divides by zero. A single
      entry may have a total of 0. */
  predicate PositiveTotals(rs: seq<PerformanceRecord>)
  {
    && (forall r :: r in rs ==> r.totalMarks > 0.0)
    && forall name :: name in Names(Entries(rs)) ==> TallyOf(Entries(rs), name).total > 0.0
  }

  function Percent(obtained: real, total: real): real
    requires total > 0.0
  {
    obtained / total * 100.0
  }

  function RecordPercent(r: PerformanceRecord): real
    requires r.totalMarks > 0.0
  {
    Percent(r.marksObtained, r.totalMarks)
  }

  // ---------------------------------------------------------------------
  // Average percentage

  /** The `reduce` of per-record percentages, from the left. */
  function SumPercent(rs: seq<PerformanceRecord>): real
    requires forall r :: r in rs ==> r.totalMarks > 0.0
  {
    if rs == [] then 0.0 else SumPercent(rs[..|rs| - 1]) + RecordPercent(rs[|rs| - 1])
  }

  /** When every record has `0 <= marksObtained <= totalMarks`, the sum lies
      between 0 and 100 per record, so the mean is a percentage. */
  lemma {:induction false} SumPercentBounds(rs: seq<PerformanceRecord>)
    requires forall r :: r in rs ==> 0.0 <= r.marksObtained <= r.totalMarks && r.totalMarks > 0.0
    ensures 0.0 <= SumPercent(rs) <= 100.0 * |rs| as real
  {
    if rs != [] {
      var r := rs[|rs| - 1];
      SumPercentBounds(rs[..|rs| - 1]);
      assert r.marksObtained / r.totalMarks <= 1.0;
    }
  }

  lemma MeanBounds(sum: real, n: real)
    requires n > 0.0 && 0.0 <= sum <= 100.0 * n
    ensures 0.0 <= sum / n <= 100.0
  {
  }

  // ---------------------------------------------------------------------
  // Topic grouping

  /** All topic entries of all records, record by record. */
  function Entries(rs: seq<PerformanceRecord>): seq<TopicEntry>
  {
    if rs == [] then [] else Entries(rs[..|rs| - 1]) + rs[|rs| - 1].topics
  }

  function Names(es: seq<TopicEntry>): (ns: seq<string>)
    ensures |ns| == |es| && forall k :: 0 <= k < |es| ==> ns[k] == es[k].topic
  {
    seq(|es|, k requires 0 <= k < |es| => es[k].topic)
  }

  function Topics(g: seq<TopicAccum>): (ts: seq<string>)
    ensures |ts| == |g| && forall k :: 0 <= k < |g| ==> ts[k] == g[k].topic
  {
    seq(|g|, k requires 0 <= k < |g| => g[k].topic)
  }

  predicate Distinct(ns: seq<string>)
  {
    forall i, j :: 0 <= i < j < |ns| ==> ns[i] != ns[j]
  }

  /** The names in order of first appearance, each once: the key order of a
      JavaScript `Map` filled with these names. */
  function FirstSeen(ns: seq<string>): (r: seq<string>)
  {
    if ns == [] then []
    else
      var p := FirstSeen(ns[..|ns| - 1]);
      if ns[|ns| - 1] in p then p else p + [ns[|ns| - 1]]
  }

  lemma {:induction false} FirstSeenMembers(ns: seq<string>)
    ensures forall x :: x in FirstSeen(ns) <==> x in ns
    ensures Distinct(FirstSeen(ns))
  {
    if ns != [] {
      var init := ns[..|ns| - 1];
      FirstSeenMembers(init);
      SplitAt(ns, |ns| - 1);
    }
  }

  /** Independent reference: the tally of all entries named `name`. */
  function TallyOf(es: seq<TopicEntry>, name: string): Tally
  {
    if es == [] then NoTally
    else
      var e := es[|es| - 1];
      Plus(TallyOf(es[..|es| - 1], name), if e.topic == name then EntryTally(e) else NoTally)
  }

  /** Position of `name` among the map's keys. */
  function FindTopic(g: seq<TopicAccum>, name: string): (r: Option<nat>)
    ensures r.Some? ==> r.value < |g| && g[r.value].topic == name
    ensures r.None? ==> forall k :: 0 <= k < |g| ==> g[k].topic != name
  {
    if g == [] then None
    else if g[|g| - 1].topic == name then Some(|g| - 1)
    else FindTopic(g[..|g| - 1], name)
  }

  /** `topicMap.set(topic, existing + entry)`, where `existing` defaults to
      zero: an existing key keeps its place, a new key goes last. */
  function Upsert(g: seq<TopicAccum>, e: TopicEntry): seq<TopicAccum>
  {
    match FindTopic(g, e.topic)
    case Some(k) => g[k := TopicAccum(e.topic, Plus(g[k].tally, EntryTally(e)))]
    case None => g + [TopicAccum(e.topic, EntryTally(e))]
  }

  /** Adding an entry to a key the map already has adds the entry's tally to
      that key in place and leaves every other key and the key order alone;
      an entry with a new name goes last, with its own tally. */
  lemma UpsertFacts(g: seq<TopicAccum>, e: TopicEntry)
    ensures FindTopic(g, e.topic).Some? ==> var k := FindTopic(g, e.topic).value;
      && |Upsert(g, e)| == |g| && Topics(Upsert(g, e)) == Topics(g)
      && Upsert(g, e)[k].tally == Plus(g[k].tally, EntryTally(e))
      && forall j :: 0 <= j < |g| && j != k ==> Upsert(g, e)[j] == g[j]
    ensures e.topic !in Topics(g) ==> Upsert(g, e) == g + [TopicAccum(e.topic, EntryTally(e))]
  {
    match FindTopic(g, e.topic)
    case Some(k) =>
      TopicsUpdate(g, k, TopicAccum(e.topic, Plus(g[k].tally, EntryTally(e))));
    case None =>
  }

  /** The topic map after every entry has been added, in order. */
  function Group(es: seq<TopicEntry>): seq<TopicAccum>
  {
    if es == [] then [] else Upsert(Group(es[..|es| - 1]), es[|es| - 1])
  }

  lemma GroupSnoc(es: seq<TopicEntry>, e: TopicEntry)
    ensures Group(es + [e]) == Upsert(Group(es), e)
  {
    assert (es + [e])[..|es|] == es;
  }

  lemma {:induction false} TallyOfAbsent(es: seq<TopicEntry>, name: string)
    requires name !in Names(es)
    ensures TallyOf(es, name) == NoTally
  {
    if es != [] {
      NamesSnoc(es);
      TallyOfAbsent(es[..|es| - 1], name);
    }
  }

  /** The grouping is correct: its keys are the entry names in first-seen
      order, each once, and each key carries the sums over every entry with
      that name. */
  lemma GroupCorrect(es: seq<TopicEntry>)
    ensures Topics(Group(es)) == FirstSeen(Names(es))
    ensures Distinct(Topics(Group(es)))
    ensures forall k :: 0 <= k < |Group(es)| ==> Group(es)[k].tally == TallyOf(es, Group(es)[k].topic)
  {
    GroupTopics(es);
    FirstSeenMembers(Names(es));
    GroupTallies(es);
  }

  lemma {:induction false} GroupTopics(es: seq<TopicEntry>)
    ensures Topics(Group(es)) == FirstSeen(Names(es))
  {
    if es != [] {
      var n := |es| - 1;
      var init, e := es[..n], es[n];
      GroupTopics(init);
      var g := Group(init);
      NamesSnoc(es);
      match FindTopic(g, e.topic)
      case Some(k) =>
        assert Topics(g)[k] == e.topic;
        TopicsUpdate(g, k, TopicAccum(e.topic, Plus(g[k].tally, EntryTally(e))));
      case None =>
        assert e.topic !in Topics(g);
        TopicsSnoc(g, TopicAccum(e.topic, EntryTally(e)));
    }
  }

  lemma NamesSnoc(es: seq<TopicEntry>)
    requires es != []
    ensures Names(es[..|es| - 1]) == Names(es)[..|es| - 1]
    ensures Names(es) == Names(es[..|es| - 1]) + [es[|es| - 1].topic]
  {
  }

  lemma TopicsUpdate(g: seq<TopicAccum>, k: int, a: TopicAccum)
    requires 0 <= k < |g| && g[k].topic == a.topic
    ensures Topics(g[k := a]) == Topics(g)
  {
  }

  lemma TopicsSnoc(g: seq<TopicAccum>, a: TopicAccum)
    ensures Topics(g + [a]) == Topics(g) + [a.topic]
  {
  }

  lemma {:induction false} GroupTallies(es: seq<TopicEntry>)
    ensures forall k :: 0 <= k < |Group(es)| ==> Group(es)[k].tally == TallyOf(es, Group(es)[k].topic)
  {
    if es != [] {
      var n := |es| - 1;
      var init, e := es[..n], es[n];
      GroupTallies(init);
      GroupTopics(init);
      FirstSeenMembers(Names(init));
      var g := Group(init);
      var g2 := Group(es);
      assert g2 == Upsert(g, e);
      forall j | 0 <= j < |g2| ensures g2[j].tally == TallyOf(es, g2[j].topic) {
        TallyOfLast(es, g2[j].topic);
        match FindTopic(g, e.topic)
        case Some(k) =>
          if j != k {
            assert Topics(g)[j] != Topics(g)[k];
          }
        case None =>
          if j == |g| {
            assert e.topic !in Topics(g);
            TallyOfAbsent(init, e.topic);
          }
      }
    }
  }

  lemma TallyOfLast(es: seq<TopicEntry>, name: string)
    requires es != []
    ensures TallyOf(es, name) == Plus(TallyOf(es[..|es| - 1], name),
                                      if es[|es| - 1].topic == name then EntryTally(es[|es| - 1]) else NoTally)
  {
  }

  lemma {:induction false} TallyOfConcat(a: seq<TopicEntry>, b: seq<TopicEntry>, name: string)
    ensures TallyOf(a + b, name) == Plus(TallyOf(a, name), TallyOf(b, name))
    decreases |b|
  {
    if b == [] {
      assert a + b == a;
    } else {
      var n := |b| - 1;
      var ab := a + b;
      assert ab[..|ab| - 1] == a + b[..n];
      assert ab[|ab| - 1] == b[n];
      TallyOfLast(ab, name);
      TallyOfLast(b, name);
      TallyOfConcat(a, b[..n], name);
    }
  }

  lemma {:induction false} EntriesConcat(a: seq<PerformanceRecord>, b: seq<PerformanceRecord>)
    ensures Entries(a + b) == Entries(a) + Entries(b)
    decreases |b|
  {
    if b == [] {
      assert a + b == a;
    } else {
      var n := |b| - 1;
      assert (a + b)[..|a + b| - 1] == a + b[..n];
      EntriesConcat(a, b[..n]);
    }
  }

  lemma EntriesOne(r: PerformanceRecord)
    ensures Entries([r]) == r.topics
  {
    assert [r][..0] == [];
  }

  /** Reordering the records changes no topic's summed marks, total or count. */
  lemma {:induction false} TallyPermutationInvariant(rs: seq<PerformanceRecord>, qs: seq<PerformanceRecord>, name: string)
    requires multiset(rs) == multiset(qs)
    ensures TallyOf(Entries(rs), name) == TallyOf(Entries(qs), name)
    decreases |rs|
  {
    if rs == [] {
      assert |qs| == |multiset(qs)| == 0;
    } else {
      var n := |rs| - 1;
      var r := rs[n];
      assert r in multiset(qs);
      var i :| 0 <= i < |qs| && qs[i] == r;
      var before, after := qs[..i], qs[i + 1..];
      MultisetRemove(rs, qs, i);
      TallyPermutationInvariant(rs[..n], before + after, name);
      var tb, tr, ta := TallyOf(Entries(before), name), TallyOf(r.topics, name), TallyOf(Entries(after), name);
      EntriesOne(r);
      assert TallyOf(Entries(rs), name) == Plus(Plus(tb, ta), tr) by {
        SplitAt(rs, n);
        TallyOfRecords(rs[..n], [r], name);
        TallyOfRecords(before, after, name);
      }
      assert TallyOf(Entries(qs), name) == Plus(Plus(tb, tr), ta) by {
        SplitAt(qs, i);
        TallyOfRecords(before + [r], after, name);
        TallyOfRecords(before, [r], name);
      }
      PlusSwap(tb, ta, tr);
    }
  }

  /** The tally over two runs of records is the sum of the two tallies. */
  lemma TallyOfRecords(a: seq<PerformanceRecord>, b: seq<PerformanceRecord>, name: string)
    ensures TallyOf(Entries(a + b), name) == Plus(TallyOf(Entries(a), name), TallyOf(Entries(b), name))
  {
    EntriesConcat(a, b);
    TallyOfConcat(Entries(a), Entries(b), name);
  }

  lemma PlusSwap(a: Tally, b: Tally, c: Tally)
    ensures Plus(Plus(a, b), c) == Plus(Plus(a, c), b)
  {
  }

  lemma {:induction false} TallyCount(es: seq<TopicEntry>, name: string)
    ensures TallyOf(es, name).count > 0 <==> name in Names(es)
  {
    if es != [] {
      NamesSnoc(es);
      TallyCount(es[..|es| - 1], name);
    }
  }

  /** Reordering the records gives the same set of topics, each with the same
      summed marks and totals (only the first-seen key order may differ). */
  lemma AggregationPermutationInvariant(rs: seq<PerformanceRecord>, qs: seq<PerformanceRecord>)
    requires multiset(rs) == multiset(qs)
    ensures forall name :: name in Topics(Group(Entries(rs))) <==> name in Topics(Group(Entries(qs)))
    ensures forall j, k ::
      (0 <= j < |Group(Entries(rs))| && 0 <= k < |Group(Entries(qs))| &&
       Group(Entries(rs))[j].topic == Group(Entries(qs))[k].topic) ==>
      Group(Entries(rs))[j].tally == Group(Entries(qs))[k].tally
  {
    GroupCorrect(Entries(rs));
    GroupCorrect(Entries(qs));
    FirstSeenMembers(Names(Entries(rs)));
    FirstSeenMembers(Names(Entries(qs)));
    forall name
      ensures name in Names(Entries(rs)) <==> name in Names(Entries(qs))
    {
      TallyPermutationInvariant(rs, qs, name);
      TallyCount(Entries(rs), name);
      TallyCount(Entries(qs), name);
    }
    forall j, k | 0 <= j < |Group(Entries(rs))| && 0 <= k < |Group(Entries(qs))|
      && Group(Entries(rs))[j].topic == Group(Entries(qs))[k].topic
      ensures Group(Entries(rs))[j].tally == Group(Entries(qs))[k].tally
    {
      TallyPermutationInvariant(rs, qs, Group(Entries(rs))[j].topic);
    }
  }

  /** The nested `forEach` loops that fill `topicMap`. */
  method AggregateTopics(rs: seq<PerformanceRecord>) returns (acc: seq<TopicAccum>)
    ensures acc == Group(Entries(rs))
    ensures Topics(acc) == FirstSeen(Names(Entries(rs))) && Distinct(Topics(acc))
    ensures forall k :: 0 <= k < |acc| ==> acc[k].tally == TallyOf(Entries(rs), acc[k].topic)
  {
    acc := [];
    ghost var seen: seq<TopicEntry> := [];
    var i := 0;
    while i < |rs|
      invariant 0 <= i <= |rs|
      invariant seen == Entries(rs[..i]) && acc == Group(seen)
    {
      var topics := rs[i].topics;
      EntriesSnoc(rs, i);
      ghost var done := seen;
      var j := 0;
      while j < |topics|
        invariant 0 <= j <= |topics|
        invariant seen == done + topics[..j] && acc == Group(seen)
      {
        ConcatPrefixSnoc(done, topics, j);
        GroupSnoc(seen, topics[j]);
        acc := Upsert(acc, topics[j]);
        seen := seen + [topics[j]];
        j := j + 1;
      }
      assert topics[..j] == topics;
      i := i + 1;
    }
    assert rs[..i] == rs;
    GroupCorrect(Entries(rs));
  }

  lemma ConcatPrefixSnoc<T>(a: seq<T>, b: seq<T>, j: int)
    requires 0 <= j < |b|
    ensures a + b[..j + 1] == (a + b[..j]) + [b[j]]
  {
    assert b[..j + 1] == b[..j] + [b[j]];
  }

  lemma EntriesSnoc(rs: seq<PerformanceRecord>, i: int)
    requires 0 <= i < |rs|
    ensures Entries(rs[..i + 1]) == Entries(rs[..i]) + rs[i].topics
  {
    assert rs[..i + 1][..i] == rs[..i];
  }

  /** With positive summed topic totals, every grouped topic has a positive total. */
  lemma GroupTotalsPositive(rs: seq<PerformanceRecord>)
    requires PositiveTotals(rs)
    ensures forall k :: 0 <= k < |Group(Entries(rs))| ==> Group(Entries(rs))[k].tally.total > 0.0
  {
    var es := Entries(rs);
    GroupCorrect(es);
    FirstSeenMembers(Names(es));
    forall k | 0 <= k < |Group(es)| ensures Group(es)[k].tally.total > 0.0 {
      assert Topics(Group(es))[k] == Group(es)[k].topic;
      assert Group(es)[k].topic in FirstSeen(Names(es));
    }
  }

  function TopicPercent(t: Tally): real
    requires t.total > 0.0
  {
    Percent(t.marks, t.total)
  }

  /** `Array.from(topicMap.entries()).map(...)`: each topic's percentage. */
  function Scores(g: seq<TopicAccum>): (s: seq<TopicScore>)
    requires forall k :: 0 <= k < |g| ==> g[k].tally.total > 0.0
    ensures |s| == |g|
    ensures forall k :: 0 <= k < |g| ==> s[k] == TopicScore(g[k].topic, TopicPercent(g[k].tally))
  {
    seq(|g|, k requires 0 <= k < |g| && g[k].tally.total > 0.0 => TopicScore(g[k].topic, TopicPercent(g[k].tally)))
  }

  // ---------------------------------------------------------------------
  // Ranking by percentage: a stable sort, highest first

  predicate SortedDesc(s: seq<TopicScore>)
  {
    forall i, j :: 0 <= i < j < |s| ==> s[i].percentage >= s[j].percentage
  }

  /** Inserts `x` after every element whose percentage is at least its own. */
  function InsertDesc(s: seq<TopicScore>, x: TopicScore): seq<TopicScore>
  {
    if s == [] || s[|s| - 1].percentage >= x.percentage then s + [x]
    else InsertDesc(s[..|s| - 1], x) + [s[|s| - 1]]
  }

  /** The order `Array.prototype.sort` produces with `(a, b) => b.percentage - a.percentage`;
      the sort is stable, so equal percentages keep their relative order. */
  function SortDesc(s: seq<TopicScore>): seq<TopicScore>
  {
    if s == [] then [] else InsertDesc(SortDesc(s[..|s| - 1]), s[|s| - 1])
  }

  lemma {:induction false} InsertDescMultiset(s: seq<TopicScore>, x: TopicScore)
    ensures multiset(InsertDesc(s, x)) == multiset(s) + multiset{x}
  {
    if s != [] && s[|s| - 1].percentage < x.percentage {
      InsertDescMultiset(s[..|s| - 1], x);
      SplitAt(s, |s| - 1);
    }
  }

  lemma {:induction false} InsertDescSorted(s: seq<TopicScore>, x: TopicScore)
    requires SortedDesc(s)
    ensures SortedDesc(InsertDesc(s, x))
  {
    if s != [] && s[|s| - 1].percentage < x.percentage {
      var init, last := s[..|s| - 1], s[|s| - 1];
      InsertDescSorted(init, x);
      InsertDescMultiset(init, x);
      var t := InsertDesc(init, x);
      forall i | 0 <= i < |t| ensures t[i].percentage >= last.percentage {
        assert t[i] in multiset(init) + multiset{x};
        if t[i] != x {
          assert t[i] in init;
        }
      }
    }
  }

  /** The elements with percentage `p`, in their order. */
  function WithPercentage(s: seq<TopicScore>, p: real): seq<TopicScore>
  {
    if s == [] then []
    else WithPercentage(s[..|s| - 1], p) + (if s[|s| - 1].percentage == p then [s[|s| - 1]] else [])
  }

  lemma {:induction false} WithPercentageConcat(a: seq<TopicScore>, b: seq<TopicScore>, p: real)
    ensures WithPercentage(a + b, p) == WithPercentage(a, p) + WithPercentage(b, p)
    decreases |b|
  {
    if b == [] {
      assert a + b == a;
    } else {
      assert (a + b)[..|a + b| - 1] == a + b[..|b| - 1];
      WithPercentageConcat(a, b[..|b| - 1], p);
    }
  }

  lemma {:induction false} InsertDescStable(s: seq<TopicScore>, x: TopicScore, p: real)
    ensures WithPercentage(InsertDesc(s, x), p) == WithPercentage(s, p) + WithPercentage([x], p)
  {
    assert [x][..0] == [];
    if s == [] || s[|s| - 1].percentage >= x.percentage {
      WithPercentageConcat(s, [x], p);
    } else {
      var init, last := s[..|s| - 1], s[|s| - 1];
      InsertDescStable(init, x, p);
      WithPercentageConcat(InsertDesc(init, x), [last], p);
      assert [last][..0] == [];
    }
  }

  /** The ranking is a permutation of its input. */
  lemma {:induction false} SortDescPermutation(s: seq<TopicScore>)
    ensures multiset(SortDesc(s)) == multiset(s)
  {
    if s != [] {
      var init, x := s[..|s| - 1], s[|s| - 1];
      SortDescPermutation(init);
      InsertDescMultiset(SortDesc(init), x);
      SplitAt(s, |s| - 1);
    }
  }

  /** The ranking is sorted highest first. */
  lemma {:induction false} SortDescSorted(s: seq<TopicScore>)
    ensures SortedDesc(SortDesc(s))
  {
    if s != [] {
      SortDescSorted(s[..|s| - 1]);
      InsertDescSorted(SortDesc(s[..|s| - 1]), s[|s| - 1]);
    }
  }

  /** The ranking is stable: the topics with any one percentage keep their order. */
  lemma {:induction false} SortDescStable(s: seq<TopicScore>, p: real)
    ensures WithPercentage(SortDesc(s), p) == WithPercentage(s, p)
  {
    if s != [] {
      var init, x := s[..|s| - 1], s[|s| - 1];
      SortDescStable(init, p);
      InsertDescStable(SortDesc(init), x, p);
      WithPercentageConcat(init, [x], p);
      SplitAt(s, |s| - 1);
    }
  }

  lemma SortDescCorrect(s: seq<TopicScore>)
    ensures |SortDesc(s)| == |s|
    ensures SortedDesc(SortDesc(s))
    ensures multiset(SortDesc(s)) == multiset(s)
  {
    SortDescPermutation(s);
    SortDescSorted(s);
    assert |multiset(SortDesc(s))| == |multiset(s)|;
  }

  /** `InsertDesc` places `x` after the last element whose percentage is at least its own. */
  lemma {:induction false} InsertDescAt(s: seq<TopicScore>, x: TopicScore, j: int)
    requires 0 <= j <= |s|
    requires j == 0 || s[j - 1].percentage >= x.percentage
    requires forall k :: j <= k < |s| ==> s[k].percentage < x.percentage
    ensures InsertDesc(s, x) == s[..j] + [x] + s[j..]
  {
    if j < |s| {
      var n := |s| - 1;
      InsertDescAt(s[..n], x, j);
      assert s[..n][..j] == s[..j];
      assert s[j..] == s[..n][j..] + [s[n]];
    }
  }

  /** `topicPerformances.sort(...)`, in place: an insertion sort that moves
      each element left past the elements with a lower percentage. */
  method SortByPercentage(a: array<TopicScore>)
    modifies a
    ensures a[..] == SortDesc(old(a[..]))
  {
    ghost var input := a[..];
    var i := 0;
    while i < a.Length
      invariant 0 <= i <= a.Length
      invariant a[..i] == SortDesc(input[..i])
      invariant a[i..] == input[i..]
    {
      SplitAt(input, i);
      assert a[i] == input[i] && a[i + 1..] == input[i + 1..] by {
        assert a[i..][0] == a[i] && a[i..][1..] == a[i + 1..];
        assert input[i..][1..] == input[i + 1..];
      }
      InsertNext(a, i);
      assert a[i + 1..] == input[i + 1..];
      i := i + 1;
    }
    assert a[..] == a[..a.Length];
    assert input[..a.Length] == input;
  }

  /** One step of the insertion sort: `a[i]` moves left into the ranked prefix `a[..i]`. */
  method InsertNext(a: array<TopicScore>, i: int)
    requires 0 <= i < a.Length
    modifies a
    ensures a[..i + 1] == InsertDesc(old(a[..i]), old(a[i]))
    ensures forall k :: i < k < a.Length ==> a[k] == old(a[k])
  {
    var x := a[i];
    ghost var s := a[..i];
    var j := i;
    while j > 0 && a[j - 1].percentage < x.percentage
      invariant 0 <= j <= i
      invariant forall k :: 0 <= k < j ==> a[k] == s[k]
      invariant forall k :: j < k <= i ==> a[k] == s[k - 1]
      invariant forall k :: i < k < a.Length ==> a[k] == old(a[k])
      invariant forall k :: j <= k < i ==> s[k].percentage < x.percentage
    {
      a[j] := a[j - 1];
      j := j - 1;
    }
    InsertDescAt(s, x, j);
    a[j] := x;
    Assembled(a[..i + 1], s, x, j);
  }

  /** A sequence that agrees with `s[..j] + [x] + s[j..]` position by position is that sequence. */
  lemma Assembled(t: seq<TopicScore>, s: seq<TopicScore>, x: TopicScore, j: int)
    requires 0 <= j <= |s| && |t| == |s| + 1
    requires forall k :: 0 <= k < j ==> t[k] == s[k]
    requires t[j] == x
    requires forall k :: j < k < |t| ==> t[k] == s[k - 1]
    ensures t == s[..j] + [x] + s[j..]
  {
    var u := s[..j] + [x] + s[j..];
    forall k | 0 <= k < |t| ensures t[k] == u[k] {
      if k < j {
        assert u[k] == s[k];
      } else if k > j {
        assert u[k] == s[k - 1];
      }
    }
  }

  // ---------------------------------------------------------------------
  // Strong and weak topics, progress

  /** `slice(0, 3)`. */
  function Strongest(sorted: seq<TopicScore>): seq<TopicScore>
  {
    sorted[..Min(3, |sorted|)]
  }

  /** `slice(-3).reverse()`. */
  function Weakest(sorted: seq<TopicScore>): seq<TopicScore>
  {
    Reverse(sorted[|sorted| - Min(3, |sorted|)..])
  }

  /** On a ranking, the strong topics are the best `min(3, n)` in order; the
      weak topics are the worst `min(3, n)`, lowest first; and with three
      topics or fewer the weak list is the strong list reversed. */
  lemma StrongWeak(sorted: seq<TopicScore>)
    requires SortedDesc(sorted)
    ensures var n, k := |sorted|, Min(3, |sorted|);
      && |Strongest(sorted)| == k && |Weakest(sorted)| == k
      && (forall i :: 0 <= i < k ==> Strongest(sorted)[i] == sorted[i])
      && (forall i, j :: 0 <= i < k <= j < n ==> Strongest(sorted)[i].percentage >= sorted[j].percentage)
      && (forall i :: 0 <= i < k ==> Weakest(sorted)[i] == sorted[n - 1 - i])
      && (forall i, j :: 0 <= i < j < k ==> Weakest(sorted)[i].percentage <= Weakest(sorted)[j].percentage)
      && (forall i, j :: 0 <= i < k && 0 <= j < n - k ==> Weakest(sorted)[i].percentage <= sorted[j].percentage)
      && (n <= 3 ==> Weakest(sorted) == Reverse(Strongest(sorted)))
  {
    WeakestAt(sorted);
    if |sorted| <= 3 {
      assert sorted[|sorted| - Min(3, |sorted|)..] == Strongest(sorted);
    }
  }

  lemma WeakestAt(sorted: seq<TopicScore>)
    ensures forall i :: 0 <= i < Min(3, |sorted|) ==> Weakest(sorted)[i] == sorted[|sorted| - 1 - i]
  {
    var n, k := |sorted|, Min(3, |sorted|);
    var tail := sorted[n - k..];
    forall i | 0 <= i < k ensures Weakest(sorted)[i] == sorted[n - 1 - i] {
      ReverseAt(tail, i);
    }
  }

  function ProgressPointOf(r: PerformanceRecord): ProgressPoint
    requires r.totalMarks > 0.0
  {
    ProgressPoint(r.createdAt, r.testName, RecordPercent(r))
  }

  /** `.map(p => ({ date, testName, percentage }))`. */
  function ProgressPoints(rs: seq<PerformanceRecord>): (ps: seq<ProgressPoint>)
    requires forall r :: r in rs ==> r.totalMarks > 0.0
    ensures |ps| == |rs|
  {
    seq(|rs|, k requires 0 <= k < |rs| => ProgressPointOf(rs[k]))
  }

  /** `performances.slice(0, 10).reverse().map(...)`. */
  function Progress(rs: seq<PerformanceRecord>): seq<ProgressPoint>
    requires forall r :: r in rs ==> r.totalMarks > 0.0
  {
    var recent := rs[..Min(10, |rs|)];
    assert forall r :: r in Reverse(recent) ==> r in rs by {
      ReverseMembers(recent);
    }
    ProgressPoints(Reverse(recent))
  }

  lemma ReverseMembers<T>(s: seq<T>)
    ensures forall x :: x in Reverse(s) ==> x in s
  {
    ReverseMultiset(s);
    forall x | x in Reverse(s) ensures x in s {
      assert x in multiset(Reverse(s));
    }
  }

  /** The progress list holds the `min(10, n)` newest records, oldest first,
      each with its own percentage. */
  lemma ProgressShape(rs: seq<PerformanceRecord>)
    requires forall r :: r in rs ==> r.totalMarks > 0.0
    ensures var m := Min(10, |rs|);
      |Progress(rs)| == m
      && forall k :: 0 <= k < m ==> Progress(rs)[k] == ProgressPointOf(rs[m - 1 - k])
  {
    var m := Min(10, |rs|);
    var recent := rs[..m];
    ReverseMembers(recent);
    forall k | 0 <= k < m ensures Progress(rs)[k] == ProgressPointOf(rs[m - 1 - k]) {
      ReverseAt(recent, k);
    }
  }

  /** When the records come newest first, the progress dates run oldest first. */
  lemma ProgressChronological(rs: seq<PerformanceRecord>)
    requires forall r :: r in rs ==> r.totalMarks > 0.0
    requires forall i, j :: 0 <= i < j < |rs| ==> rs[i].createdAt.millis >= rs[j].createdAt.millis
    ensures forall i, j :: 0 <= i < j < |Progress(rs)| ==> Progress(rs)[i].date.millis <= Progress(rs)[j].date.millis
  {
    ProgressShape(rs);
  }

  // ---------------------------------------------------------------------
  // The analytics endpoint

  /** The ranked topics: grouped, scored, sorted highest first. */
  function RankedTopics(rs: seq<PerformanceRecord>): seq<TopicScore>
    requires PositiveTotals(rs)
  {
    assert forall k :: 0 <= k < |Group(Entries(rs))| ==> Group(Entries(rs))[k].tally.total > 0.0 by {
      GroupTotalsPositive(rs);
    }
    SortDesc(Scores(Group(Entries(rs))))
  }

  /** The summary the analytics endpoint answers for one student's records,
      newest first. */
  function Analyze(studentId: string, rs: seq<PerformanceRecord>): Analytics
    requires PositiveTotals(rs)
  {
    if rs == [] then Analytics(studentId, 0, 0.0, [], [], [])
    else
      var ranked := RankedTopics(rs);
      Analytics(studentId, |rs|, SumPercent(rs) / |rs| as real,
                Strongest(ranked), Weakest(ranked), Progress(rs))
  }

  /** What the summary means: the empty case answers zeros; otherwise the
      count, the mean of the record percentages, one ranked entry per topic
      name with its summed percentage, strong and weak topics drawn from the
      ranking, and the recent progress. */
  lemma AnalyzeCorrect(studentId: string, rs: seq<PerformanceRecord>)
    requires PositiveTotals(rs)
    ensures Analyze(studentId, rs).studentId == studentId
    ensures Analyze(studentId, rs).totalTests == |rs|
    ensures rs == [] ==> Analyze(studentId, rs) == Analytics(studentId, 0, 0.0, [], [], [])
    ensures rs != [] ==> Analyze(studentId, rs).averagePercentage == SumPercent(rs) / |rs| as real
    ensures (forall r :: r in rs ==> 0.0 <= r.marksObtained <= r.totalMarks) ==>
      0.0 <= Analyze(studentId, rs).averagePercentage <= 100.0
    ensures |Analyze(studentId, rs).progress| == Min(10, |rs|)
  {
    if rs != [] {
      if forall r :: r in rs ==> 0.0 <= r.marksObtained <= r.totalMarks {
        SumPercentBounds(rs);
        MeanBounds(SumPercent(rs), |rs| as real);
      }
      ProgressShape(rs);
    }
  }

  /** The ranking has exactly one entry per topic name that occurs in any
      record, scored by the sums over all its entries, highest first; the
      strong and weak lists are its ends. */
  lemma RankedTopicsCorrect(rs: seq<PerformanceRecord>)
    requires PositiveTotals(rs)
    ensures var ranked, es := RankedTopics(rs), Entries(rs);
      && SortedDesc(ranked)
      && |ranked| == |FirstSeen(Names(es))|
      && (forall x :: x in ranked ==>
            (x.topic in Names(es) && TallyOf(es, x.topic).total > 0.0 &&
             x.percentage == TopicPercent(TallyOf(es, x.topic))))
      && (forall name :: name in Names(es) ==> exists x :: x in ranked && x.topic == name)
      && (forall i, j :: 0 <= i < j < |ranked| ==> ranked[i].topic != ranked[j].topic)
      && |Strongest(ranked)| == Min(3, |ranked|) && |Weakest(ranked)| == Min(3, |ranked|)
  {
    var es := Entries(rs);
    GroupTotalsPositive(rs);
    var g := Group(es);
    var scores := Scores(g);
    ScoresCorrect(rs);
    SortDescCorrect(scores);
    var ranked := RankedTopics(rs);
    assert ranked == SortDesc(scores);
    StrongWeak(ranked);
    SameMembers(scores, ranked);
    forall i, j | 0 <= i < j < |ranked| ensures ranked[i].topic != ranked[j].topic {
      DistinctScores(g, scores, ranked, i, j);
    }
  }

  lemma SameMembers<T>(s: seq<T>, t: seq<T>)
    requires multiset(s) == multiset(t)
    ensures forall x :: x in s <==> x in t
  {
    forall x ensures x in s <==> x in t {
      assert x in s <==> x in multiset(s);
      assert x in t <==> x in multiset(t);
    }
  }

  /** Before sorting: one score per grouped topic, in first-seen order, each
      the percentage of that topic's summed marks over its summed totals. */
  lemma ScoresCorrect(rs: seq<PerformanceRecord>)
    requires PositiveTotals(rs)
    ensures forall k :: 0 <= k < |Group(Entries(rs))| ==> Group(Entries(rs))[k].tally.total > 0.0
    ensures var es := Entries(rs); var g := Group(es); var scores := Scores(g);
      && |scores| == |FirstSeen(Names(es))|
      && (forall k :: 0 <= k < |scores| ==> scores[k].topic == g[k].topic)
      && Distinct(Topics(g))
      && (forall x :: x in scores ==>
            (x.topic in Names(es) && TallyOf(es, x.topic).total > 0.0 &&
             x.percentage == TopicPercent(TallyOf(es, x.topic))))
      && (forall name :: name in Names(es) ==> exists x :: x in scores && x.topic == name)
  {
    var es := Entries(rs);
    GroupTotalsPositive(rs);
    GroupCorrect(es);
    var g := Group(es);
    var scores := Scores(g);
    forall x | x in scores
      ensures x.topic in Names(es) && TallyOf(es, x.topic).total > 0.0 && x.percentage == TopicPercent(TallyOf(es, x.topic))
    {
      var k :| 0 <= k < |scores| && scores[k] == x;
      ScoreAt(rs, k);
    }
    forall name | name in Names(es)
      ensures exists x :: x in scores && x.topic == name
    {
      FirstSeenMembers(Names(es));
      var k :| 0 <= k < |Topics(g)| && Topics(g)[k] == name;
      ScoreAt(rs, k);
    }
  }

  /** The `k`-th score before sorting belongs to the `k`-th grouped topic. */
  lemma ScoreAt(rs: seq<PerformanceRecord>, k: int)
    requires PositiveTotals(rs)
    requires 0 <= k < |Group(Entries(rs))|
    ensures forall j :: 0 <= j < |Group(Entries(rs))| ==> Group(Entries(rs))[j].tally.total > 0.0
    ensures var es := Entries(rs); var g := Group(es); var x := Scores(g)[k];
      && x.topic == g[k].topic && x.topic in Names(es) && TallyOf(es, x.topic).total > 0.0
      && x.percentage == TopicPercent(TallyOf(es, x.topic))
  {
    var es := Entries(rs);
    GroupTotalsPositive(rs);
    GroupCorrect(es);
    FirstSeenMembers(Names(es));
    assert Topics(Group(es))[k] == Group(es)[k].topic;
  }

  lemma DistinctScores(g: seq<TopicAccum>, scores: seq<TopicScore>, ranked: seq<TopicScore>, i: int, j: int)
    requires Distinct(Topics(g))
    requires |scores| == |g| && forall k :: 0 <= k < |g| ==> scores[k].topic == g[k].topic
    requires multiset(ranked) == multiset(scores)
    requires 0 <= i < j < |ranked|
    ensures ranked[i].topic != ranked[j].topic
  {
    var x, y := ranked[i], ranked[j];
    if x.topic == y.topic {
      assert x in multiset(scores) && y in multiset(scores);
      var a :| 0 <= a < |scores| && scores[a] == x;
      var b :| 0 <= b < |scores| && scores[b] == y;
      assert Topics(g)[a] == Topics(g)[b];
      if x == y {
        // the same score twice in `ranked` would occur twice in `scores`
        TwiceInMultiset(ranked, i, j);
        OnceInMultiset(scores, x);
      }
    }
  }

  lemma TwiceInMultiset<T>(s: seq<T>, i: int, j: int)
    requires 0 <= i < j < |s| && s[i] == s[j]
    ensures multiset(s)[s[i]] >= 2
  {
    assert s == s[..j] + [s[j]] + s[j + 1..];
    assert s[i] in s[..j];
  }

  /** In a sequence without repeated elements each value occurs at most once. */
  lemma {:induction false} OnceInMultiset<T>(s: seq<T>, x: T)
    requires forall a, b :: 0 <= a < b < |s| ==> s[a] != s[b]
    ensures multiset(s)[x] <= 1
  {
    if s != [] {
      var n := |s| - 1;
      assert s == s[..n] + [s[n]];
      OnceInMultiset(s[..n], x);
      if s[n] == x {
        assert x !in s[..n];
      }
    }
  }

  /** `getStudentAnalytics` after the database query: the imperative grouping,
      the in-place sort and the slices. */
  method GetStudentAnalytics(studentId: string, rs: seq<PerformanceRecord>) returns (a: Analytics)
    requires PositiveTotals(rs)
    ensures a == Analyze(studentId, rs)
  {
    if |rs| == 0 {
      return Analytics(studentId, 0, 0.0, [], [], []);
    }
    var totalTests := |rs|;
    var average := SumPercent(rs) / totalTests as real;
    var topicMap := AggregateTopics(rs);
    GroupTotalsPositive(rs);
    var scores := Scores(topicMap);
    var topicPerformances := new TopicScore[|scores|](k requires 0 <= k < |scores| => scores[k]);
    assert topicPerformances[..] == scores;
    SortByPercentage(topicPerformances);
    var ranked := topicPerformances[..];
    a := Analytics(studentId, totalTests, average, Strongest(ranked), Weakest(ranked), Progress(rs));
  }

  // ---------------------------------------------------------------------
  // The record listing

  /** The query object: a filter is present only when its parameter is
      supplied and non-empty (a JavaScript truthy string). */
  datatype Query = Query(studentId: Option<string>, subject: Option<string>)

  function BuildQuery(studentId: Option<string>, subject: Option<string>): (q: Query)
    ensures q.studentId.Some? <==> studentId.Some? && studentId.value != ""
    ensures q.subject.Some? <==> subject.Some? && subject.value != ""
    ensures q.studentId.Some? ==> q.studentId == studentId
    ensures q.subject.Some? ==> q.subject == subject
  {
    Query(if studentId == Some("") then None else studentId,
          if subject == Some("") then None else subject)
  }

  predicate Matches(r: PerformanceRecord, q: Query)
  {
    (q.studentId.Some? ==> r.studentId == q.studentId.value)
    && (q.subject.Some? ==> r.subject == q.subject.value)
  }

  /** `StudentPerformance.find(query)` over the store, keeping its order. */
  function Find(store: seq<PerformanceRecord>, q: Query): (found: seq<PerformanceRecord>)
    ensures |found| <= |store|
    ensures forall r :: r in found <==> r in store && Matches(r, q)
  {
    if store == [] then []
    else
      var init := Find(store[..|store| - 1], q);
      var last := store[|store| - 1];
      SplitAt(store, |store| - 1);
      if Matches(last, q) then init + [last] else init
  }

  /** The query result of a concatenated store is the result of each part,
      in store order: `find` keeps the order and multiplicity of matches. */
  lemma {:induction false} FindConcat(a: seq<PerformanceRecord>, b: seq<PerformanceRecord>, q: Query)
    ensures Find(a + b, q) == Find(a, q) + Find(b, q)
  {
    if b == [] {
      assert a + b == a;
    } else {
      var ab := a + b;
      var b0 := b[..|b| - 1];
      assert ab[..|ab| - 1] == a + b0;
      assert ab[|ab| - 1] == b[|b| - 1];
      FindConcat(a, b0, q);
    }
  }

  /** A one-record store yields that record exactly when it matches. */
  lemma FindOne(r: PerformanceRecord, q: Query)
    ensures Find([r], q) == if Matches(r, q) then [r] else []
  {
    assert [r][..0] == [];
  }

  lemma UnfilteredFindsAll(store: seq<PerformanceRecord>)
    ensures Find(store, BuildQuery(None, None)) == store
  {
    if store != [] {
      UnfilteredFindsAll(store[..|store| - 1]);
      SplitAt(store, |store| - 1);
    }
  }

  datatype Listing = Listing(performances: seq<PerformanceRecord>, pagination: Pagination.PageInfo)

  /** `getPerformanceRecords` over a store already ordered newest first. */
  function ListPerformanceRecords(store: seq<PerformanceRecord>, studentId: Option<string>, subject: Option<string>,
                                  page: Option<int>, limit: Option<int>): (r: Response<Listing>)
    requires limit.GetOr(Pagination.DefaultLimit) > 0
    ensures r.NotFound? == false
    ensures r.ServerError? <==> page.GetOr(Pagination.DefaultPage) < 1
    ensures r.Ok? ==> var found := Find(store, BuildQuery(studentId, subject));
      && r.body.pagination == Pagination.Info(|found|, page, limit)
      && |r.body.performances| <= r.body.pagination.limit
      && forall r' :: r' in r.body.performances ==> r' in store && Matches(r', BuildQuery(studentId, subject))
    ensures r.Ok? ==> Pagination.PageOf(Find(store, BuildQuery(studentId, subject)),
                                        page.GetOr(Pagination.DefaultPage), limit.GetOr(Pagination.DefaultLimit))
                      == Some(r.body.performances)
  {
    var q := BuildQuery(studentId, subject);
    var found := Find(store, q);
    var l := limit.GetOr(Pagination.DefaultLimit);
    match Pagination.PageOf(found, page.GetOr(Pagination.DefaultPage), l)
    case None => ServerError
    case Some(items) =>
      assert forall r' :: r' in items ==> r' in found;
      Ok(Listing(items, Pagination.Info(|found|, page, limit)))
  }

  /** Paging through the listing shows every matching record: the `k`-th
      match, in store order, is on page `k / limit + 1`, one of the reported
      pages, at position `k % limit`. */
  lemma ListingShowsEveryMatch(store: seq<PerformanceRecord>, studentId: Option<string>, subject: Option<string>,
                               limit: int, k: int)
    requires limit > 0
    requires 0 <= k < |Find(store, BuildQuery(studentId, subject))|
    ensures var r := ListPerformanceRecords(store, studentId, subject, Some(k / limit + 1), Some(limit));
      && r.Ok?
      && k / limit + 1 <= r.body.pagination.pages
      && k % limit < |r.body.performances|
      && r.body.performances[k % limit] == Find(store, BuildQuery(studentId, subject))[k]
  {
    Pagination.ItemOnItsPage(Find(store, BuildQuery(studentId, subject)), limit, k);
  }

  // ---------------------------------------------------------------------
  // Worked examples

  /** Two tests at 80/100 and 60/100 average to exactly 70. */
  lemma AverageExample(a: PerformanceRecord, b: PerformanceRecord)
    requires a.marksObtained == 80.0 && a.totalMarks == 100.0 && a.topics == []
    requires b.marksObtained == 60.0 && b.totalMarks == 100.0 && b.topics == []
    ensures Entries([a, b]) == []
    ensures Analyze("s", [a, b]).averagePercentage == 70.0
  {
    assert [a, b][..1] == [a];
    assert [a][..0] == [];
    assert [a] + [b] == [a, b];
    EntriesConcat([a], [b]);
    EntriesOne(a);
    EntriesOne(b);
    assert RecordPercent(a) == 80.0;
    assert RecordPercent(b) == 60.0;
    assert SumPercent([a]) == 80.0;
    assert SumPercent([a, b]) == 140.0;
  }

  /** Two entries for one topic, 80/100 and 20/20, sum to 100/120, that is 250/3 percent. */
  lemma TopicExample(r: PerformanceRecord)
    requires r.totalMarks > 0.0
    requires r.topics == [TopicEntry("math", 80.0, 100.0), TopicEntry("math", 20.0, 20.0)]
    ensures Names(Entries([r])) == ["math", "math"] && TallyOf(Entries([r]), "math").total == 120.0
    ensures RankedTopics([r]) == [TopicScore("math", 250.0 / 3.0)]
  {
    EntriesOne(r);
    var es := r.topics;
    assert es[..1] == [es[0]];
    assert [es[0]][..0] == [];
    assert Names(es) == ["math", "math"];
    assert TallyOf([es[0]], "math") == Tally(80.0, 100.0, 1);
    TallyOfLast(es, "math");
    assert TallyOf(es, "math") == Tally(100.0, 120.0, 2);
    assert Group([es[0]]) == [TopicAccum("math", Tally(80.0, 100.0, 1))];
    assert Group(es) == [TopicAccum("math", Tally(100.0, 120.0, 2))];
    assert Scores(Group(es)) == [TopicScore("math", 250.0 / 3.0)];
    assert [TopicScore("math", 250.0 / 3.0)][..0] == [];
  }

  /** An entry with total 0 is answered when its topic's summed total is
      positive: 0/0 and 5/10 for one topic rank it at 50 percent. */
  lemma ZeroEntryExample(r: PerformanceRecord)
    requires r.totalMarks > 0.0
    requires r.topics == [TopicEntry("alg", 0.0, 0.0), TopicEntry("alg", 5.0, 10.0)]
    ensures PositiveTotals([r])
    ensures RankedTopics([r]) == [TopicScore("alg", 50.0)]
  {
    EntriesOne(r);
    var es := r.topics;
    assert es[..1] == [es[0]];
    assert [es[0]][..0] == [];
    assert Names(es) == ["alg", "alg"];
    assert TallyOf([es[0]], "alg") == Tally(0.0, 0.0, 1);
    TallyOfLast(es, "alg");
    assert TallyOf(es, "alg") == Tally(5.0, 10.0, 2);
    assert Group([es[0]]) == [TopicAccum("alg", Tally(0.0, 0.0, 1))];
    assert Group(es) == [TopicAccum("alg", Tally(5.0, 10.0, 2))];
    assert Scores(Group(es)) == [TopicScore("alg", 50.0)];
    assert [TopicScore("alg", 50.0)][..0] == [];
  }
}
