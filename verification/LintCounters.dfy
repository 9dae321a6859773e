/**
 Two counters of the same lint report (scripts/analyze-ts-errors.js, scripts/get-ts-error-details.js).
 */
module LintCounters {
  import opened Sequences

  datatype Message = Message(severity: int, ruleId: Option<string>, line: int, column: int, message: string)

  datatype Report = Report(filePath: string, messages: seq<Message>)

  datatype Detail = Detail(line: int, col: int, rule: Option<string>, msg: string)

  predicate IsTs(path: string) { |path| >= 3 && path[|path| - 3..] == ".ts" }

  /** The last part of a path, `\` counting as `/`. */
  function BaseName(path: string): (r: string)
    ensures '/' !in r && '\\' !in r && |r| <= |path| && r == path[|path| - |r|..]
    ensures |r| < |path| ==> path[|path| - |r| - 1] in {'/', '\\'}
  {
    if path == "" || path[|path| - 1] in {'/', '\\'} then ""
    else BaseName(path[..|path| - 1]) + [path[|path| - 1]]
  }

  /** `m.ruleId || '(parsing)'` */
  function RuleOf(m: Message): string {
    if m.ruleId in {None, Some("")} then "(parsing)" else m.ruleId.value
  }

  // ---------------------------------------------------------------------------------------------
  // The analysis: by file and by rule
  // ---------------------------------------------------------------------------------------------

  /** One error: the file it is counted under and its rule. */
  datatype Hit = Hit(file: string, rule: string)

  function FileOf(h: Hit): string { h.file }
  function RuleOfHit(h: Hit): string { h.rule }

  function HitsIn(file: string, messages: seq<Message>): seq<Hit> {
    if messages == [] then []
    else
      var init, last := HitsIn(file, messages[..|messages| - 1]), messages[|messages| - 1];
      if last.severity == 2 then init + [Hit(file, RuleOf(last))] else init
  }

  /** The errors of all `.ts` files, in the order they are met. */
  function Hits(reports: seq<Report>): seq<Hit> {
    if reports == [] then []
    else
      var init, last := Hits(reports[..|reports| - 1]), reports[|reports| - 1];
      if IsTs(last.filePath) then init + HitsIn(BaseName(last.filePath), last.messages) else init
  }

  function MessageCount(reports: seq<Report>): nat {
    if reports == [] then 0
    else
      var last := reports[|reports| - 1];
      MessageCount(reports[..|reports| - 1]) + if IsTs(last.filePath) then |last.messages| else 0
  }

  type Counts = map<string, nat>

  /** `counts[key] = (counts[key] || 0) + 1` */
  function Bump(counts: Counts, key: string): Counts {
    counts[key := (if key in counts then counts[key] else 0) + 1]
  }

  function Tally(key: Hit -> string, hits: seq<Hit>): Counts {
    if hits == [] then map[] else Bump(Tally(key, hits[..|hits| - 1]), key(hits[|hits| - 1]))
  }

  function Occurrences(key: Hit -> string, hits: seq<Hit>, k: string): nat {
    if hits == [] then 0
    else Occurrences(key, hits[..|hits| - 1], k) + if key(hits[|hits| - 1]) == k then 1 else 0
  }

  ghost predicate Counted(hits: seq<Hit>, byFile: Counts, byRule: Counts) {
    byFile == Tally(FileOf, hits) && byRule == Tally(RuleOfHit, hits)
  }

  lemma CountedNext(hits: seq<Hit>, byFile: Counts, byRule: Counts, h: Hit)
    requires Counted(hits, byFile, byRule)
    ensures Counted(hits + [h], Bump(byFile, h.file), Bump(byRule, h.rule))
  {
    assert (hits + [h])[..|hits|] == hits;
  }

  /** The inner `forEach`. */
  method CountMessages(ghost hits: seq<Hit>, fileName: string, messages: seq<Message>,
                       total0: nat, byFile0: Counts, byRule0: Counts)
    returns (total: nat, byFile: Counts, byRule: Counts)
    requires Counted(hits, byFile0, byRule0)
    ensures Counted(hits + HitsIn(fileName, messages), byFile, byRule) && total == total0 + |messages|
  {
    total, byFile, byRule := total0, byFile0, byRule0;
    assert hits + [] == hits;
    for j := 0 to |messages|
      invariant Counted(hits + HitsIn(fileName, messages[..j]), byFile, byRule) && total == total0 + j
    {
      var m := messages[j];
      assert messages[..j + 1][..j] == messages[..j];
      total := total + 1;
      if m.severity == 2 {
        var rule := RuleOf(m);
        ConcatAssoc(hits, HitsIn(fileName, messages[..j]), [Hit(fileName, rule)]);
        CountedNext(hits + HitsIn(fileName, messages[..j]), byFile, byRule, Hit(fileName, rule));
        byFile := Bump(byFile, fileName);
        byRule := Bump(byRule, rule);
      }
    }
    assert messages[..|messages|] == messages;
  }

  lemma HitsNext(reports: seq<Report>, i: nat)
    requires i < |reports|
    ensures Hits(reports[..i + 1]) == if IsTs(reports[i].filePath)
              then Hits(reports[..i]) + HitsIn(BaseName(reports[i].filePath), reports[i].messages)
              else Hits(reports[..i])
    ensures MessageCount(reports[..i + 1]) ==
              MessageCount(reports[..i]) + if IsTs(reports[i].filePath) then |reports[i].messages| else 0
  {
    assert reports[..i + 1][..i] == reports[..i];
  }

  method AnalyzeTsErrors(reports: seq<Report>) returns (total: nat, byFile: Counts, byRule: Counts)
    ensures Counted(Hits(reports), byFile, byRule) && total == MessageCount(reports)
  {
    total, byFile, byRule := 0, map[], map[];
    for i := 0 to |reports|
      invariant Counted(Hits(reports[..i]), byFile, byRule) && total == MessageCount(reports[..i])
    {
      HitsNext(reports, i);
      if !IsTs(reports[i].filePath) { continue; }
      total, byFile, byRule := CountMessages(
        Hits(reports[..i]), BaseName(reports[i].filePath), reports[i].messages, total, byFile, byRule);
    }
    assert reports[..|reports|] == reports;
  }

  /** Sum of all counts. */
  ghost function SumCounts(m: Counts): nat {
    if m == map[] then 0 else var k :| k in m; m[k] + SumCounts(m - {k})
  }

  lemma {:induction false} SumRemove(m: Counts, k: string)
    requires k in m
    ensures SumCounts(m) == m[k] + SumCounts(m - {k})
    decreases |m|
  {
    var j :| j in m && SumCounts(m) == m[j] + SumCounts(m - {j});
    if j != k {
      SumRemove(m - {j}, k);
      SumRemove(m - {k}, j);
      assert m - {j} - {k} == m - {k} - {j};
    }
  }

  lemma SumUpdate(m: Counts, k: string, n: nat)
    ensures SumCounts(m[k := n]) == SumCounts(m) - (if k in m then m[k] else 0) + n
  {
    SumRemove(m[k := n], k);
    if k in m {
      SumRemove(m, k);
      assert m[k := n] - {k} == m - {k};
    } else {
      assert m[k := n] - {k} == m;
    }
  }

  /** By whatever key, a tally counts each hit under its key and nowhere else. */
  lemma {:induction false} TallyCounts(key: Hit -> string, hits: seq<Hit>)
    ensures SumCounts(Tally(key, hits)) == |hits|
    ensures forall k :: k in Tally(key, hits) <==> Occurrences(key, hits, k) > 0
    ensures forall k :: k in Tally(key, hits) ==> Tally(key, hits)[k] == Occurrences(key, hits, k)
  {
    if hits != [] {
      var init := hits[..|hits| - 1];
      TallyCounts(key, init);
      var m, k := Tally(key, init), key(hits[|hits| - 1]);
      SumUpdate(m, k, (if k in m then m[k] else 0) + 1);
    }
  }

  lemma {:induction false} HitsAreMessages(file: string, messages: seq<Message>)
    ensures |HitsIn(file, messages)| <= |messages|
    ensures |HitsIn(file, messages)| == |messages| <==> forall m :: m in messages ==> m.severity == 2
  {
    if messages != [] {
      var init, last := messages[..|messages| - 1], messages[|messages| - 1];
      assert messages == init + [last];
      HitsAreMessages(file, init);
    }
  }

  ghost predicate IsErrorOf(r: Report, m: Message, h: Hit) {
    IsTs(r.filePath) && m in r.messages && m.severity == 2 && h == Hit(BaseName(r.filePath), RuleOf(m))
  }

  lemma {:induction false} HitsInExact(file: string, messages: seq<Message>, h: Hit)
    ensures h in HitsIn(file, messages) <==>
              exists m :: m in messages && m.severity == 2 && h == Hit(file, RuleOf(m))
  {
    if messages != [] {
      var init, last := messages[..|messages| - 1], messages[|messages| - 1];
      assert messages == init + [last];
      HitsInExact(file, init, h);
    }
  }

  /** What is counted: exactly the errors of severity 2 of the `.ts` files, under basename and rule. */
  lemma {:induction false} HitsExact(reports: seq<Report>, h: Hit)
    ensures h in Hits(reports) <==> exists r, m :: r in reports && IsErrorOf(r, m, h)
  {
    if reports != [] {
      var init, last := reports[..|reports| - 1], reports[|reports| - 1];
      assert reports == init + [last];
      HitsExact(init, h);
      HitsInExact(BaseName(last.filePath), last.messages, h);
      if IsTs(last.filePath) && h in HitsIn(BaseName(last.filePath), last.messages) {
        var m :| m in last.messages && m.severity == 2 && h == Hit(BaseName(last.filePath), RuleOf(m));
        assert IsErrorOf(last, m, h);
      }
    }
  }

  ghost predicate NoWarnings(r: Report) {
    IsTs(r.filePath) ==> forall m :: m in r.messages ==> m.severity == 2
  }

  lemma {:induction false} HitsAtMostMessages(reports: seq<Report>)
    ensures |Hits(reports)| <= MessageCount(reports)
    ensures |Hits(reports)| == MessageCount(reports) <==> forall r :: r in reports ==> NoWarnings(r)
  {
    if reports != [] {
      var init, last := reports[..|reports| - 1], reports[|reports| - 1];
      assert reports == init + [last];
      HitsAtMostMessages(init);
      HitsAreMessages(BaseName(last.filePath), last.messages);
      assert NoWarnings(last) <==> !IsTs(last.filePath) || |HitsIn(BaseName(last.filePath), last.messages)| == |last.messages|;
    }
  }

  /**
   By file or by rule, the analysis counts the same errors. What it prints as the total of errors counts
   every message: it is that number exactly when no `.ts` file has a mere warning.
   */
  lemma {:induction false} CountersAgree(reports: seq<Report>)
    ensures SumCounts(Tally(FileOf, Hits(reports))) == SumCounts(Tally(RuleOfHit, Hits(reports))) == |Hits(reports)|
    ensures |Hits(reports)| <= MessageCount(reports)
    ensures |Hits(reports)| == MessageCount(reports) <==> forall r :: r in reports ==> NoWarnings(r)
  {
    TallyCounts(FileOf, Hits(reports));
    TallyCounts(RuleOfHit, Hits(reports));
    HitsAtMostMessages(reports);
  }

  // ---------------------------------------------------------------------------------------------
  // The details: by file, the last one overwriting
  // ---------------------------------------------------------------------------------------------

  function DetailOf(e: Message): Detail {
    Detail(e.line, e.column, e.ruleId, if |e.message| <= 80 then e.message else e.message[..80])
  }

  function Details(messages: seq<Message>): seq<Detail> {
    if messages == [] then []
    else
      var init, last := Details(messages[..|messages| - 1]), messages[|messages| - 1];
      if last.severity == 2 then init + [DetailOf(last)] else init
  }

  datatype Entry = Entry(name: string, details: seq<Detail>)

  /** The `.ts` files that have errors, in order. */
  function Entries(reports: seq<Report>): seq<Entry> {
    if reports == [] then []
    else
      var init, last := Entries(reports[..|reports| - 1]), reports[|reports| - 1];
      if IsTs(last.filePath) && Details(last.messages) != []
      then init + [Entry(BaseName(last.filePath), Details(last.messages))] else init
  }

  type FileMap = map<string, seq<Detail>>

  /** Each name with the details of the last entry of that name. */
  function Latest(entries: seq<Entry>): FileMap {
    if entries == [] then map[]
    else
      var last := entries[|entries| - 1];
      Latest(entries[..|entries| - 1])[last.name := last.details]
  }

  function Lengths(m: FileMap): Counts { map k | k in m :: |m[k]| }

  method TsErrorDetails(reports: seq<Report>) returns (fileMap: FileMap, total: nat)
    ensures fileMap == Latest(Entries(reports))
    ensures total == SumCounts(Lengths(fileMap))
  {
    fileMap := map[];
    for i := 0 to |reports|
      invariant fileMap == Latest(Entries(reports[..i]))
    {
      var f := reports[i];
      ghost var before := Entries(reports[..i]);
      assert reports[..i + 1][..i] == reports[..i];
      if !IsTs(f.filePath) { continue; }
      var short := BaseName(f.filePath);
      var errors := Details(f.messages);
      if |errors| > 0 {
        LatestNext(before, Entry(short, errors));
        fileMap := fileMap[short := errors];
      }
    }
    assert reports[..|reports|] == reports;
    total := FlatLength(fileMap);
  }

  lemma LatestNext(entries: seq<Entry>, e: Entry)
    ensures Latest(entries + [e]) == Latest(entries)[e.name := e.details]
  {
    assert (entries + [e])[..|entries|] == entries;
  }

  /** `Object.values(fileMap).flat().length` */
  method FlatLength(fileMap: FileMap) returns (total: nat)
    ensures total == SumCounts(Lengths(fileMap))
  {
    total := 0;
    var left := fileMap;
    while left != map[]
      invariant total + SumCounts(Lengths(left)) == SumCounts(Lengths(fileMap))
      decreases |left|
    {
      var k :| k in left;
      SumRemove(Lengths(left), k);
      assert Lengths(left) - {k} == Lengths(left - {k});
      total := total + |left[k]|;
      left := left - {k};
    }
  }

  ghost predicate IsLast(entries: seq<Entry>, name: string, i: nat)
    requires i < |entries|
  {
    entries[i].name == name && forall j :: i < j < |entries| ==> entries[j].name != name
  }

  /** Under each name the map has the details of the last entry of that name, and no other names. */
  lemma {:induction false} LatestIsLast(entries: seq<Entry>, name: string)
    ensures if name in Latest(entries)
            then exists i :: 0 <= i < |entries| && IsLast(entries, name, i) && Latest(entries)[name] == entries[i].details
            else forall i :: 0 <= i < |entries| ==> entries[i].name != name
  {
    if entries != [] {
      var init, n := entries[..|entries| - 1], |entries| - 1;
      LatestIsLast(init, name);
      assert forall i :: 0 <= i < n ==> init[i] == entries[i];
      if entries[n].name == name {
        assert IsLast(entries, name, n);
      } else if name in Latest(init) {
        var i :| 0 <= i < n && IsLast(init, name, i) && Latest(init)[name] == init[i].details;
        assert IsLast(entries, name, i);
      }
    }
  }

  function EntryLengths(entries: seq<Entry>): nat {
    if entries == [] then 0 else EntryLengths(entries[..|entries| - 1]) + |entries[|entries| - 1].details|
  }

  function Names(entries: seq<Entry>): seq<string> {
    if entries == [] then [] else Names(entries[..|entries| - 1]) + [entries[|entries| - 1].name]
  }

  lemma NoDupNext(names: seq<string>, name: string)
    ensures NoDup(names + [name]) <==> NoDup(names) && name !in names
  {
    var all := names + [name];
    if NoDup(all) {
      forall i | 0 <= i < |names| ensures names[i] != name { assert all[i] != all[|names|]; }
      forall i, j | 0 <= i < j < |names| ensures names[i] != names[j] { assert all[i] != all[j]; }
    }
  }

  lemma {:induction false} LatestSize(entries: seq<Entry>)
    requires forall e :: e in entries ==> e.details != []
    ensures forall k :: k in Latest(entries) <==> k in Names(entries)
    ensures forall k :: k in Latest(entries) ==> Latest(entries)[k] != []
    ensures SumCounts(Lengths(Latest(entries))) <= EntryLengths(entries)
    ensures SumCounts(Lengths(Latest(entries))) == EntryLengths(entries) <==> NoDup(Names(entries))
  {
    if entries == [] {
      assert Lengths(map[]) == map[];
    } else {
      var init, last := entries[..|entries| - 1], entries[|entries| - 1];
      assert entries == init + [last];
      LatestSize(init);
      var m := Latest(init);
      assert Lengths(m[last.name := last.details]) == Lengths(m)[last.name := |last.details|];
      SumUpdate(Lengths(m), last.name, |last.details|);
      NoDupNext(Names(init), last.name);
    }
  }

  lemma {:induction false} DetailsAreHits(file: string, messages: seq<Message>)
    ensures |Details(messages)| == |HitsIn(file, messages)|
  {
    if messages != [] { DetailsAreHits(file, messages[..|messages| - 1]); }
  }

  lemma {:induction false} EntriesAreHits(reports: seq<Report>)
    ensures EntryLengths(Entries(reports)) == |Hits(reports)|
    ensures forall e :: e in Entries(reports) ==> e.details != []
  {
    if reports != [] {
      var init, last := reports[..|reports| - 1], reports[|reports| - 1];
      EntriesAreHits(init);
      DetailsAreHits(BaseName(last.filePath), last.messages);
      if IsTs(last.filePath) && Details(last.messages) != [] {
        assert Entries(reports)[..|Entries(init)|] == Entries(init);
      }
    }
  }

  ghost predicate Erroring(r: Report) {
    IsTs(r.filePath) && exists m :: m in r.messages && m.severity == 2
  }

  ghost predicate Clash(q: Report, r: Report) {
    Erroring(q) && Erroring(r) && BaseName(q.filePath) == BaseName(r.filePath)
  }

  /** No two `.ts` files that have errors share a basename. */
  ghost predicate DistinctNames(reports: seq<Report>) { Apart(Clash, reports) }

  lemma {:induction false} DetailsOfErrors(messages: seq<Message>)
    ensures Details(messages) != [] <==> exists m :: m in messages && m.severity == 2
  {
    if messages != [] {
      var init := messages[..|messages| - 1];
      assert messages == init + [messages[|messages| - 1]];
      DetailsOfErrors(init);
    }
  }

  lemma ErroringExactly(r: Report)
    ensures Erroring(r) <==> IsTs(r.filePath) && Details(r.messages) != []
  {
    DetailsOfErrors(r.messages);
  }

  lemma NamesAppend(entries: seq<Entry>, e: Entry)
    ensures Names(entries + [e]) == Names(entries) + [e.name]
  {
    assert (entries + [e])[..|entries|] == entries;
  }

  lemma NamesNext(reports: seq<Report>, r: Report)
    ensures Names(Entries(reports + [r])) ==
              if IsTs(r.filePath) && Details(r.messages) != []
              then Names(Entries(reports)) + [BaseName(r.filePath)] else Names(Entries(reports))
  {
    assert (reports + [r])[..|reports|] == reports && (reports + [r])[|reports|] == r;
    NamesAppend(Entries(reports), Entry(BaseName(r.filePath), Details(r.messages)));
  }

  lemma {:induction false} NamesOfErroring(reports: seq<Report>, name: string)
    ensures name in Names(Entries(reports)) <==>
              exists r :: r in reports && Erroring(r) && BaseName(r.filePath) == name
  {
    if reports != [] {
      var init, last := reports[..|reports| - 1], reports[|reports| - 1];
      assert reports == init + [last];
      NamesOfErroring(init, name);
      NamesNext(init, last);
      ErroringExactly(last);
    }
  }

  lemma {:induction false} NamesDistinct(reports: seq<Report>)
    ensures NoDup(Names(Entries(reports))) <==> DistinctNames(reports)
  {
    if reports != [] {
      var init, last := reports[..|reports| - 1], reports[|reports| - 1];
      assert reports == init + [last];
      NamesDistinct(init);
      NamesNext(init, last);
      ErroringExactly(last);
      NamesOfErroring(init, BaseName(last.filePath));
      NoDupNext(Names(Entries(init)), BaseName(last.filePath));
      ApartNext(Clash, init, last);
    }
  }

  /**
   The two scripts: the detail total never exceeds the errors the analysis counts, and equals them exactly
   when no two `.ts` files that have errors share a basename.
   */
  lemma {:induction false} ScriptsAgree(reports: seq<Report>)
    ensures var total := SumCounts(Lengths(Latest(Entries(reports))));
      && total <= SumCounts(Tally(FileOf, Hits(reports)))
      && (total == SumCounts(Tally(FileOf, Hits(reports))) <==> DistinctNames(reports))
  {
    TallyCounts(FileOf, Hits(reports));
    EntriesAreHits(reports);
    LatestSize(Entries(reports));
    NamesDistinct(reports);
  }

  /** A report with one warning: no error is counted, and the printed total of errors is 1. */
  lemma {:induction false} WarningIsTotalled(m: Message)
    requires m.severity == 1
    ensures var reports := [Report("a.ts", [m])]; Hits(reports) == [] && MessageCount(reports) == 1
  {
    var r := Report("a.ts", [m]);
    assert [m][..0] == [] && [r][..0] == [];
    assert HitsIn(BaseName("a.ts"), [m]) == [];
    assert IsTs("a.ts");
  }

  // ---------------------------------------------------------------------------------------------
  // The counts on the messages themselves
  // ---------------------------------------------------------------------------------------------

  /** A `.ts` path is anything before those three characters. */
  lemma IsTsExactly(path: string)
    ensures IsTs(path) <==> exists stem :: path == stem + ".ts"
  {
    if IsTs(path) { assert path == path[..|path| - 3] + ".ts"; }
    if exists stem :: path == stem + ".ts" {
      var stem :| path == stem + ".ts";
      assert path[|path| - 3..] == ".ts";
    }
  }

  /** An absent or empty rule id is a parse error; any other stands for itself. */
  lemma RuleOfExactly(m: Message)
    ensures RuleOf(m) == match m.ruleId
                         case None => "(parsing)"
                         case Some(id) => if |id| == 0 then "(parsing)" else id
  {
  }

  /** Message `j` of report `i` is an error of a `.ts` file that is counted under `k`. */
  ghost predicate CountedUnder(key: Hit -> string, reports: seq<Report>, k: string, i: int, j: int)
    requires 0 <= i < |reports| && 0 <= j < |reports[i].messages|
  {
    var r := reports[i];
    IsTs(r.filePath) && r.messages[j].severity == 2 && key(Hit(BaseName(r.filePath), RuleOf(r.messages[j]))) == k
  }

  ghost function Positions(key: Hit -> string, reports: seq<Report>, k: string): set<(int, int)> {
    set i, j | 0 <= i < |reports| && 0 <= j < |reports[i].messages| && CountedUnder(key, reports, k, i, j) :: (i, j)
  }

  ghost predicate RowCounts(key: Hit -> string, file: string, messages: seq<Message>, k: string, j: int)
    requires 0 <= j < |messages|
  {
    messages[j].severity == 2 && key(Hit(file, RuleOf(messages[j]))) == k
  }

  ghost function Row(key: Hit -> string, file: string, messages: seq<Message>, k: string, i: int): set<(int, int)> {
    set j | 0 <= j < |messages| && RowCounts(key, file, messages, k, j) :: (i, j)
  }

  lemma {:induction false} OccurrencesConcat(key: Hit -> string, a: seq<Hit>, b: seq<Hit>, k: string)
    ensures Occurrences(key, a + b, k) == Occurrences(key, a, k) + Occurrences(key, b, k)
    decreases |b|
  {
    if b == [] {
      assert a + b == a;
    } else {
      assert (a + b)[..|a + b| - 1] == a + b[..|b| - 1];
      OccurrencesConcat(key, a, b[..|b| - 1], k);
    }
  }

  lemma {:induction false} RowSize(key: Hit -> string, file: string, messages: seq<Message>, k: string, i: int)
    ensures |Row(key, file, messages, k, i)| == Occurrences(key, HitsIn(file, messages), k)
  {
    if messages == [] {
      assert Row(key, file, messages, k, i) == {};
    } else {
      var init, n := messages[..|messages| - 1], |messages| - 1;
      RowSize(key, file, init, k, i);
      assert forall j :: 0 <= j < n ==> (RowCounts(key, file, messages, k, j) <==> RowCounts(key, file, init, k, j));
      var last := if RowCounts(key, file, messages, k, n) then {(i, n)} else {};
      assert Row(key, file, messages, k, i) == Row(key, file, init, k, i) + last;
      assert (i, n) !in Row(key, file, init, k, i);
      if messages[n].severity == 2 {
        OccurrencesConcat(key, HitsIn(file, init), [Hit(file, RuleOf(messages[n]))], k);
      }
    }
  }

  ghost function LastRow(key: Hit -> string, reports: seq<Report>, k: string): set<(int, int)>
    requires reports != []
  {
    var n := |reports| - 1;
    if IsTs(reports[n].filePath) then Row(key, BaseName(reports[n].filePath), reports[n].messages, k, n) else {}
  }

  lemma PositionInRow(key: Hit -> string, reports: seq<Report>, k: string, j: int)
    requires reports != []
    ensures (|reports| - 1, j) in LastRow(key, reports, k) <==>
              0 <= j < |reports[|reports| - 1].messages| && CountedUnder(key, reports, k, |reports| - 1, j)
  {
    var n := |reports| - 1;
    if 0 <= j < |reports[n].messages| && IsTs(reports[n].filePath) {
      assert RowCounts(key, BaseName(reports[n].filePath), reports[n].messages, k, j) <==> CountedUnder(key, reports, k, n, j);
    }
  }

  lemma PositionBefore(key: Hit -> string, reports: seq<Report>, k: string, i: int, j: int)
    requires reports != [] && 0 <= i < |reports| - 1
    ensures (i, j) in Positions(key, reports, k) <==> (i, j) in Positions(key, reports[..|reports| - 1], k)
  {
    var init := reports[..|reports| - 1];
    assert init[i] == reports[i];
    if 0 <= j < |reports[i].messages| {
      assert CountedUnder(key, reports, k, i, j) <==> CountedUnder(key, init, k, i, j);
    }
  }

  lemma {:induction false} PositionsNext(key: Hit -> string, reports: seq<Report>, k: string)
    requires reports != []
    ensures var init, row := reports[..|reports| - 1], LastRow(key, reports, k);
            Positions(key, reports, k) == Positions(key, init, k) + row && Positions(key, init, k) !! row
  {
    var init, row, n := reports[..|reports| - 1], LastRow(key, reports, k), |reports| - 1;
    forall p: (int, int) ensures p in Positions(key, reports, k) <==> p in Positions(key, init, k) || p in row {
      if 0 <= p.0 < n { PositionBefore(key, reports, k, p.0, p.1); }
      if p.0 == n { PositionInRow(key, reports, k, p.1); }
    }
  }

  /** What is counted under a file or a rule is the number of places in the report where such an error stands. */
  lemma {:induction false} CountsArePositions(key: Hit -> string, reports: seq<Report>, k: string)
    ensures Occurrences(key, Hits(reports), k) == |Positions(key, reports, k)|
  {
    if reports == [] {
      assert Positions(key, reports, k) == {};
    } else {
      var init, last := reports[..|reports| - 1], reports[|reports| - 1];
      CountsArePositions(key, init, k);
      PositionsNext(key, reports, k);
      if IsTs(last.filePath) {
        var file := BaseName(last.filePath);
        OccurrencesConcat(key, Hits(init), HitsIn(file, last.messages), k);
        RowSize(key, file, last.messages, k, |init|);
      }
    }
  }

  /** The details of a file: one per error, in order, with the error's own line, column and rule and the start of its text. */
  lemma {:induction false} DetailsInOrder(messages: seq<Message>, m: Message)
    ensures Details([]) == []
    ensures m.severity != 2 ==> Details(messages + [m]) == Details(messages)
    ensures m.severity == 2 ==>
              |Details(messages + [m])| == |Details(messages)| + 1 && Details(messages) <= Details(messages + [m])
              && var d := Details(messages + [m])[|Details(messages)|];
                 d.line == m.line && d.col == m.column && d.rule == m.ruleId
                 && d.msg <= m.message && |d.msg| == if |m.message| < 80 then |m.message| else 80
  {
    assert (messages + [m])[..|messages|] == messages;
  }
}
