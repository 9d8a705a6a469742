/** The `/export` aggregation: votes are partitioned by main subject and, inside
    each, by display subject; each part gives one row with its vote count and
    its per-category score totals. An average is the pair (total, count); its
    decimal rendering is not modelled. */
module Export {
  import opened Base
  import opened Intake

  const GroupEvaluation: string := "Group Evaluation"
  const HeaderStart: seq<string> := ["Group/Subject", "Participant/Detail", "Vote Count"]

  /** Which field a partition is keyed on. */
  datatype KeyKind = ByMain | BySubject

  function GroupKey(kind: KeyKind, v: Vote): string
  {
    match kind
    case ByMain => v.mainSubject
    case BySubject => v.subject
  }

  /** `vote.scores[cat.id] || 0`: a missing score counts as 0. */
  function Score(v: Vote, categoryId: string): int
  {
    if categoryId in v.scores then v.scores[categoryId] else 0
  }

  /** What a row adds up: one per vote, or one category's score taken `times`
      times per vote. */
  datatype Measure = Count | CategoryScore(categoryId: string, times: nat)

  function Weight(m: Measure, v: Vote): int
  {
    match m
    case Count => 1
    case CategoryScore(id, times) => times * Score(v, id)
  }

  function Total(vs: seq<Vote>, m: Measure): int
  {
    if vs == [] then 0 else Total(vs[..|vs| - 1], m) + Weight(m, vs[|vs| - 1])
  }

  /** The votes whose key is `key`, in vote order (`acc[key].push(vote)`). */
  function Select(vs: seq<Vote>, kind: KeyKind, key: string): (r: seq<Vote>)
    ensures forall v :: v in r <==> v in vs && GroupKey(kind, v) == key
    ensures |r| <= |vs|
  {
    if vs == [] then []
    else
      var last := vs[|vs| - 1];
      Select(vs[..|vs| - 1], kind, key) + (if GroupKey(kind, last) == key then [last] else [])
  }

  /** A part keeps every copy of each of its votes: two equal records of one
      submission are both counted. */
  lemma {:induction false} SelectKeepsCopies(vs: seq<Vote>, kind: KeyKind, key: string)
    ensures forall v :: multiset(Select(vs, kind, key))[v] ==
                        if GroupKey(kind, v) == key then multiset(vs)[v] else 0
  {
    if vs != [] {
      var p := vs[..|vs| - 1];
      assert vs == p + [vs[|vs| - 1]];
      SelectKeepsCopies(p, kind, key);
    }
  }

  predicate Distinct(ks: seq<string>)
  {
    forall i, j :: 0 <= i < j < |ks| ==> ks[i] != ks[j]
  }

  /** The keys of the accumulator object in the order they were first seen. */
  function Keys(vs: seq<Vote>, kind: KeyKind): (ks: seq<string>)
    ensures Distinct(ks)
    ensures forall v :: v in vs ==> GroupKey(kind, v) in ks
    ensures forall k :: k in ks ==> exists v :: v in vs && GroupKey(kind, v) == k
  {
    if vs == [] then []
    else
      var prior := Keys(vs[..|vs| - 1], kind);
      var key := GroupKey(kind, vs[|vs| - 1]);
      assert forall v :: v in vs ==> v in vs[..|vs| - 1] || v == vs[|vs| - 1];
      if key in prior then prior else prior + [key]
  }

  /** The sum, over the parts keyed `ks`, of a measure of each part. */
  function SumOver(vs: seq<Vote>, kind: KeyKind, ks: seq<string>, m: Measure): int
  {
    if ks == [] then 0 else Total(Select(vs, kind, ks[0]), m) + SumOver(vs, kind, ks[1..], m)
  }

  lemma {:induction false} CountIsLength(vs: seq<Vote>)
    ensures Total(vs, Count) == |vs|
  {
    if vs != [] {
      CountIsLength(vs[..|vs| - 1]);
    }
  }

  lemma SnocShapes(vs: seq<Vote>, x: Vote, kind: KeyKind, key: string, m: Measure)
    ensures Select(vs + [x], kind, key) ==
            Select(vs, kind, key) + (if GroupKey(kind, x) == key then [x] else [])
    ensures Total(vs + [x], m) == Total(vs, m) + Weight(m, x)
  {
    assert (vs + [x])[..|vs|] == vs;
  }

  lemma PartSnoc(vs: seq<Vote>, x: Vote, kind: KeyKind, key: string, m: Measure)
    ensures Total(Select(vs + [x], kind, key), m) ==
            Total(Select(vs, kind, key), m) + (if GroupKey(kind, x) == key then Weight(m, x) else 0)
  {
    var sel := Select(vs, kind, key);
    SnocShapes(vs, x, kind, key, m);
    SnocShapes(sel, x, kind, key, m);
    if GroupKey(kind, x) != key {
      assert sel + [] == sel;
    }
  }

  lemma {:induction false} SumOverSnoc(vs: seq<Vote>, x: Vote, kind: KeyKind, ks: seq<string>, m: Measure)
    requires Distinct(ks)
    ensures SumOver(vs + [x], kind, ks, m) ==
            SumOver(vs, kind, ks, m) + (if GroupKey(kind, x) in ks then Weight(m, x) else 0)
  {
    if ks != [] {
      var key := GroupKey(kind, x);
      PartSnoc(vs, x, kind, ks[0], m);
      assert Distinct(ks[1..]);
      SumOverSnoc(vs, x, kind, ks[1..], m);
      assert ks == [ks[0]] + ks[1..];
      assert key in ks <==> key == ks[0] || key in ks[1..];
      if key == ks[0] {
        assert key !in ks[1..];
      }
    }
  }

  /** Partitioning loses and duplicates nothing: over distinct keys that cover
      every vote, the parts' measures add up to the measure of all votes. */
  lemma {:induction false} PartitionTotal(vs: seq<Vote>, kind: KeyKind, ks: seq<string>, m: Measure)
    requires Distinct(ks)
    requires forall v :: v in vs ==> GroupKey(kind, v) in ks
    ensures SumOver(vs, kind, ks, m) == Total(vs, m)
  {
    if vs == [] {
      if ks != [] {
        PartitionTotal(vs, kind, ks[1..], m);
      }
    } else {
      var p, x := vs[..|vs| - 1], vs[|vs| - 1];
      assert vs == p + [x];
      PartitionTotal(p, kind, ks, m);
      SumOverSnoc(p, x, kind, ks, m);
      SnocShapes(p, x, kind, "", m);
    }
  }

  // ---- Rows ------------------------------------------------------------------

  datatype Row =
    | Header(columns: seq<string>)
    | GroupScore(mainSubject: string, count: nat, totals: seq<int>)  // the "Group Score" row
    | SubScore(displayName: string, count: nat, totals: seq<int>)
    | Spacer

  function CategoryNames(categories: seq<Category>): seq<string>
  {
    seq(|categories|, i requires 0 <= i < |categories| => categories[i].name)
  }

  /** How many categories carry the id `id`. */
  function IdCount(categories: seq<Category>, id: string): nat
  {
    if categories == [] then 0
    else IdCount(categories[..|categories| - 1], id) + (if categories[|categories| - 1].id == id then 1 else 0)
  }

  /** What the accumulator keyed by `cat.id` holds for column `i`: for every vote,
      every category carrying that id adds the vote's score once. */
  function Column(categories: seq<Category>, i: nat): Measure
    requires i < |categories|
  {
    CategoryScore(categories[i].id, IdCount(categories, categories[i].id))
  }

  /** One total per category, in category order; a column reads the accumulator
      entry of its category's id. */
  function CategoryTotals(categories: seq<Category>, vs: seq<Vote>): (r: seq<int>)
    ensures |r| == |categories|
    ensures forall i :: 0 <= i < |categories| ==>
              r[i] == IdCount(categories, categories[i].id) * Total(vs, CategoryScore(categories[i].id, 1))
  {
    assert forall i :: 0 <= i < |categories| ==>
             Total(vs, Column(categories, i)) ==
             IdCount(categories, categories[i].id) * Total(vs, CategoryScore(categories[i].id, 1)) by {
      forall i | 0 <= i < |categories| {
        TotalScaled(vs, categories[i].id, IdCount(categories, categories[i].id));
      }
    }
    seq(|categories|, i requires 0 <= i < |categories| => Total(vs, Column(categories, i)))
  }

  /** Taking a score `t` times per vote multiplies its total by `t`. */
  lemma {:induction false} TotalScaled(vs: seq<Vote>, id: string, t: nat)
    ensures Total(vs, CategoryScore(id, t)) == t * Total(vs, CategoryScore(id, 1))
  {
    if vs != [] {
      var p, x := vs[..|vs| - 1], vs[|vs| - 1];
      TotalScaled(p, id, t);
      assert t * (Total(p, CategoryScore(id, 1)) + Score(x, id)) ==
             t * Total(p, CategoryScore(id, 1)) + t * Score(x, id);
    }
  }

  /** With distinct category ids each column is the plain sum of its scores. */
  lemma {:induction false} DistinctIdsCountOnce(categories: seq<Category>, i: nat)
    requires forall j, k :: 0 <= j < k < |categories| ==> categories[j].id != categories[k].id
    requires i < |categories|
    ensures IdCount(categories, categories[i].id) == 1
  {
    var n := |categories| - 1;
    var p := categories[..n];
    if i == n {
      IdAbsent(p, categories[i].id);
    } else {
      DistinctIdsCountOnce(p, i);
    }
  }

  lemma {:induction false} IdAbsent(categories: seq<Category>, id: string)
    requires forall j :: 0 <= j < |categories| ==> categories[j].id != id
    ensures IdCount(categories, id) == 0
  {
    if categories != [] {
      IdAbsent(categories[..|categories| - 1], id);
    }
  }

  /** The label of a sub-row. */
  function DisplayName(mainSubject: string, subject: string): (name: string)
    ensures StartsWith(subject, mainSubject + " - ") ==> subject == mainSubject + " - " + name
    ensures !StartsWith(subject, mainSubject + " - ") ==>
              name == (if subject == mainSubject || subject == mainSubject + " (Group)" then GroupEvaluation
                       else subject)
  {
    if StartsWith(subject, mainSubject + " - ") then subject[|mainSubject| + 3..]
    else if subject == mainSubject || subject == mainSubject + " (Group)" then GroupEvaluation
    else subject
  }

  function SubRows(categories: seq<Category>, mainSubject: string, mainVotes: seq<Vote>,
                   subjects: seq<string>): (rows: seq<Row>)
    ensures |rows| == |subjects|
    ensures forall k :: 0 <= k < |subjects| ==>
              var part := Select(mainVotes, BySubject, subjects[k]);
              rows[k] == SubScore(DisplayName(mainSubject, subjects[k]), |part|, CategoryTotals(categories, part))
  {
    if subjects == [] then []
    else
      var part := Select(mainVotes, BySubject, subjects[0]);
      [SubScore(DisplayName(mainSubject, subjects[0]), |part|, CategoryTotals(categories, part))] +
      SubRows(categories, mainSubject, mainVotes, subjects[1..])
  }

  /** The rows of one main subject: its group row, its sub-rows, a spacer. */
  function Block(categories: seq<Category>, votes: seq<Vote>, mainSubject: string): (rows: seq<Row>)
    ensures var mainVotes := Select(votes, ByMain, mainSubject);
            |rows| == |Keys(mainVotes, BySubject)| + 2 &&
            rows[0] == GroupScore(mainSubject, |mainVotes|, CategoryTotals(categories, mainVotes)) &&
            rows[|rows| - 1] == Spacer &&
            forall k :: 1 <= k < |rows| - 1 ==> rows[k].SubScore?
  {
    var mainVotes := Select(votes, ByMain, mainSubject);
    [GroupScore(mainSubject, |mainVotes|, CategoryTotals(categories, mainVotes))] +
    SubRows(categories, mainSubject, mainVotes, Keys(mainVotes, BySubject)) +
    [Spacer]
  }

  function Blocks(categories: seq<Category>, votes: seq<Vote>, mainSubjects: seq<string>): seq<Row>
  {
    if mainSubjects == [] then []
    else Block(categories, votes, mainSubjects[0]) + Blocks(categories, votes, mainSubjects[1..])
  }

  /** The CSV rows of `/export`, before rendering. */
  function ExportRows(categories: seq<Category>, votes: seq<Vote>): (rows: seq<Row>)
    ensures |rows| >= 1 && rows[0] == Header(HeaderStart + CategoryNames(categories))
    ensures |CategoryNames(categories)| == |categories|
  {
    [Header(HeaderStart + CategoryNames(categories))] + Blocks(categories, votes, Keys(votes, ByMain))
  }

  // ---- Properties of the rows -------------------------------------------------

  /** The votes of the parts keyed `ks`, taken together. */
  function PartsUnion(vs: seq<Vote>, kind: KeyKind, ks: seq<string>): multiset<Vote>
  {
    if ks == [] then multiset{} else multiset(Select(vs, kind, ks[0])) + PartsUnion(vs, kind, ks[1..])
  }

  lemma {:induction false} PartsUnionCount(vs: seq<Vote>, kind: KeyKind, ks: seq<string>, v: Vote)
    requires Distinct(ks)
    ensures PartsUnion(vs, kind, ks)[v] == if GroupKey(kind, v) in ks then multiset(vs)[v] else 0
  {
    if ks != [] {
      SelectKeepsCopies(vs, kind, ks[0]);
      assert Distinct(ks[1..]);
      PartsUnionCount(vs, kind, ks[1..], v);
      assert ks == [ks[0]] + ks[1..];
      if GroupKey(kind, v) == ks[0] {
        assert ks[0] !in ks[1..];
      }
    }
  }

  /** Over distinct keys that cover every vote, the parts hold every vote exactly
      as often as the votes do: nothing is lost and nothing is duplicated. */
  lemma PartitionKeepsVotes(vs: seq<Vote>, kind: KeyKind, ks: seq<string>)
    requires Distinct(ks)
    requires forall v :: v in vs ==> GroupKey(kind, v) in ks
    ensures PartsUnion(vs, kind, ks) == multiset(vs)
  {
    forall v {
      PartsUnionCount(vs, kind, ks, v);
    }
  }

  function SubCountSum(rows: seq<Row>): int
  {
    if rows == [] then 0
    else (if rows[0].SubScore? then rows[0].count else 0) + SubCountSum(rows[1..])
  }

  function SubTotalSum(rows: seq<Row>, i: nat): int
  {
    if rows == [] then 0
    else (if rows[0].SubScore? && i < |rows[0].totals| then rows[0].totals[i] else 0) +
         SubTotalSum(rows[1..], i)
  }

  lemma {:induction false} SubRowsSums(categories: seq<Category>, mainSubject: string,
                                       mainVotes: seq<Vote>, subjects: seq<string>, i: nat)
    requires i < |categories|
    ensures SubCountSum(SubRows(categories, mainSubject, mainVotes, subjects)) ==
            SumOver(mainVotes, BySubject, subjects, Count)
    ensures SubTotalSum(SubRows(categories, mainSubject, mainVotes, subjects), i) ==
            SumOver(mainVotes, BySubject, subjects, Column(categories, i))
  {
    if subjects != [] {
      CountIsLength(Select(mainVotes, BySubject, subjects[0]));
      SubRowsSums(categories, mainSubject, mainVotes, subjects[1..], i);
    }
  }

  /** Within one main subject, the sub-row counts add up to the group row's
      count, and each category's sub-row totals add up to the group total. */
  lemma BlockSumsAgree(categories: seq<Category>, votes: seq<Vote>, mainSubject: string, i: nat)
    requires i < |categories|
    ensures var rows := Block(categories, votes, mainSubject);
            rows[0].GroupScore? &&
            SubCountSum(rows) == rows[0].count &&
            SubTotalSum(rows, i) == rows[0].totals[i]
  {
    var mainVotes := Select(votes, ByMain, mainSubject);
    var subjects := Keys(mainVotes, BySubject);
    var subs := SubRows(categories, mainSubject, mainVotes, subjects);
    SubRowsSums(categories, mainSubject, mainVotes, subjects, i);
    PartitionTotal(mainVotes, BySubject, subjects, Count);
    PartitionTotal(mainVotes, BySubject, subjects, Column(categories, i));
    CountIsLength(mainVotes);
    var rows := Block(categories, votes, mainSubject);
    assert rows == [rows[0]] + (subs + [Spacer]);
    SumsAppend(subs, [Spacer], i);
  }

  lemma {:induction false} SumsAppend(a: seq<Row>, b: seq<Row>, i: nat)
    ensures SubCountSum(a + b) == SubCountSum(a) + SubCountSum(b)
    ensures SubTotalSum(a + b, i) == SubTotalSum(a, i) + SubTotalSum(b, i)
    ensures GroupCountSum(a + b) == GroupCountSum(a) + GroupCountSum(b)
    ensures GroupSubjects(a + b) == GroupSubjects(a) + GroupSubjects(b)
  {
    if a == [] {
      assert a + b == b;
    } else {
      assert (a + b)[1..] == a[1..] + b;
      SumsAppend(a[1..], b, i);
    }
  }

  function GroupCountSum(rows: seq<Row>): int
  {
    if rows == [] then 0
    else (if rows[0].GroupScore? then rows[0].count else 0) + GroupCountSum(rows[1..])
  }

  /** The main subjects of the group rows, in row order. */
  function GroupSubjects(rows: seq<Row>): seq<string>
  {
    if rows == [] then []
    else (if rows[0].GroupScore? then [rows[0].mainSubject] else []) + GroupSubjects(rows[1..])
  }

  lemma {:induction false} SubRowsHaveNoGroup(categories: seq<Category>, mainSubject: string,
                                              mainVotes: seq<Vote>, subjects: seq<string>)
    ensures GroupCountSum(SubRows(categories, mainSubject, mainVotes, subjects)) == 0
    ensures GroupSubjects(SubRows(categories, mainSubject, mainVotes, subjects)) == []
  {
    if subjects != [] {
      SubRowsHaveNoGroup(categories, mainSubject, mainVotes, subjects[1..]);
    }
  }

  lemma {:induction false} BlocksGroups(categories: seq<Category>, votes: seq<Vote>, mainSubjects: seq<string>)
    ensures GroupCountSum(Blocks(categories, votes, mainSubjects)) == SumOver(votes, ByMain, mainSubjects, Count)
    ensures GroupSubjects(Blocks(categories, votes, mainSubjects)) == mainSubjects
  {
    if mainSubjects != [] {
      var m := mainSubjects[0];
      var mainVotes := Select(votes, ByMain, m);
      var subs := SubRows(categories, m, mainVotes, Keys(mainVotes, BySubject));
      var block := Block(categories, votes, m);
      var rest := Blocks(categories, votes, mainSubjects[1..]);
      BlocksGroups(categories, votes, mainSubjects[1..]);
      SubRowsHaveNoGroup(categories, m, mainVotes, Keys(mainVotes, BySubject));
      CountIsLength(mainVotes);
      assert block == [block[0]] + (subs + [Spacer]);
      SumsAppend(subs, [Spacer], 0);
      SumsAppend([block[0]], subs + [Spacer], 0);
      SumsAppend(block, rest, 0);
    }
  }

  /** The export has one group row per distinct main subject, in first-seen
      order, and the group row counts add up to the number of votes. */
  lemma ExportGroups(categories: seq<Category>, votes: seq<Vote>)
    ensures var rows := ExportRows(categories, votes);
            rows[0] == Header(HeaderStart + CategoryNames(categories)) &&
            GroupSubjects(rows) == Keys(votes, ByMain) &&
            GroupCountSum(rows) == |votes|
  {
    var mains := Keys(votes, ByMain);
    var header := Header(HeaderStart + CategoryNames(categories));
    var blocks := Blocks(categories, votes, mains);
    assert ExportRows(categories, votes) == [header] + blocks;
    BlocksGroups(categories, votes, mains);
    PartitionTotal(votes, ByMain, mains, Count);
    CountIsLength(votes);
    SumsAppend([header], blocks, 0);
    assert GroupSubjects([header]) == [] && GroupCountSum([header]) == 0;
  }

  /** A group row's count and totals are over exactly the votes with its main
      subject, each copy of a repeated vote included; every count is positive, so
      no average divides by zero. */
  lemma GroupRowMeaning(categories: seq<Category>, votes: seq<Vote>, mainSubject: string, i: nat)
    requires mainSubject in Keys(votes, ByMain)
    requires i < |categories|
    ensures var row := Block(categories, votes, mainSubject)[0];
            var mine := Select(votes, ByMain, mainSubject);
            row.count >= 1 &&
            (forall v :: multiset(mine)[v] == if v.mainSubject == mainSubject then multiset(votes)[v] else 0) &&
            row.count == Total(mine, Count) &&
            row.totals[i] == IdCount(categories, categories[i].id) * Total(mine, CategoryScore(categories[i].id, 1))
  {
    var mine := Select(votes, ByMain, mainSubject);
    SelectKeepsCopies(votes, ByMain, mainSubject);
    var v :| v in votes && GroupKey(ByMain, v) == mainSubject;
    assert v in mine;
    CountIsLength(mine);
  }

  /** Every sub-row of a main subject counts at least one vote. */
  lemma {:induction false} SubRowsPositive(categories: seq<Category>, mainSubject: string,
                                           mainVotes: seq<Vote>, subjects: seq<string>)
    requires forall s :: s in subjects ==> exists v :: v in mainVotes && v.subject == s
    ensures forall r :: r in SubRows(categories, mainSubject, mainVotes, subjects) ==> r.SubScore? && r.count >= 1
  {
    if subjects != [] {
      assert subjects[0] in subjects;
      assert forall s :: s in subjects[1..] ==> s in subjects;
      var v :| v in mainVotes && v.subject == subjects[0];
      assert v in Select(mainVotes, BySubject, subjects[0]);
      SubRowsPositive(categories, mainSubject, mainVotes, subjects[1..]);
    }
  }

  // ---- Labels -----------------------------------------------------------------

  /** The export undoes the intake's labelling: a participant item's sub-row is
      named after the participant, and any other item's is "Group Evaluation",
      in every voting mode. So the verbatim fallback of the display name is
      never reached by records the intake makes. */
  lemma LabelRoundTrip(mainSubject: string, votingMode: string, item: Item)
    ensures item.itemType == ParticipantType ==>
            DisplayName(mainSubject, DisplaySubject(mainSubject, votingMode, item)) == item.name
    ensures item.itemType != ParticipantType ==>
            DisplayName(mainSubject, DisplaySubject(mainSubject, votingMode, item)) == GroupEvaluation
  {
    var n := |mainSubject|;
    var s := DisplaySubject(mainSubject, votingMode, item);
    if item.itemType == ParticipantType {
      assert s == (mainSubject + " - ") + item.name;
      assert s[..n + 3] == mainSubject + " - ";
      assert s[n + 3..] == item.name;
    } else if item.itemType == GroupType && votingMode == MixedMode {
      assert s == mainSubject + " (Group)";
      assert s[n + 1] == '(';
      assert (mainSubject + " - ")[n + 1] == '-';
    }
  }

  // ---- Order and positivity ---------------------------------------------------

  /** First-seen order: appending votes only appends keys. */
  lemma {:induction false} KeysFirstSeen(a: seq<Vote>, b: seq<Vote>, kind: KeyKind)
    ensures Keys(a, kind) <= Keys(a + b, kind)
    decreases |b|
  {
    if b == [] {
      assert a + b == a;
    } else {
      var b' := b[..|b| - 1];
      assert (a + b)[..|a + b| - 1] == a + b';
      KeysFirstSeen(a, b', kind);
    }
  }

  /** The rows of a main subject that some vote carries all count at least one vote. */
  lemma BlockPositive(categories: seq<Category>, votes: seq<Vote>, m: string)
    requires exists v :: v in votes && v.mainSubject == m
    ensures forall r :: r in Block(categories, votes, m) && (r.GroupScore? || r.SubScore?) ==> r.count >= 1
  {
    var mainVotes := Select(votes, ByMain, m);
    var v :| v in votes && v.mainSubject == m;
    assert v in mainVotes;
    var subjects := Keys(mainVotes, BySubject);
    var subs := SubRows(categories, m, mainVotes, subjects);
    SubRowsPositive(categories, m, mainVotes, subjects);
    var rows := Block(categories, votes, m);
    assert rows == [rows[0]] + subs + [Spacer];
  }

  lemma {:induction false} BlocksPositive(categories: seq<Category>, votes: seq<Vote>, mainSubjects: seq<string>)
    requires forall m :: m in mainSubjects ==> exists v :: v in votes && v.mainSubject == m
    ensures forall r :: r in Blocks(categories, votes, mainSubjects) && (r.GroupScore? || r.SubScore?) ==> r.count >= 1
  {
    if mainSubjects != [] {
      var m := mainSubjects[0];
      assert m in mainSubjects;
      assert forall s :: s in mainSubjects[1..] ==> s in mainSubjects;
      BlockPositive(categories, votes, m);
      BlocksPositive(categories, votes, mainSubjects[1..]);
    }
  }

  /** Every count in the export is at least one: no average divides by zero. */
  lemma ExportCountsPositive(categories: seq<Category>, votes: seq<Vote>)
    ensures forall r :: r in ExportRows(categories, votes) && (r.GroupScore? || r.SubScore?) ==> r.count >= 1
  {
    BlocksPositive(categories, votes, Keys(votes, ByMain));
  }
}
