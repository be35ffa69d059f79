/** The assistant's long-term memory: keyword-based importance scoring,
    category inference, and an OWNER-only, append-only table of records with
    a recency-ordered, numbered recall listing. The SQLite table is the pair
    of its rows (in insertion order) and the next AUTOINCREMENT id. */
module LongTermMemory {
  import opened Text
  import opened AccessMode

  const ImportanceKeywords: seq<string> :=
    ["deadline", "meeting", "exam", "task", "important", "urgent", "remember", "must"]
  const TaskKeywords: seq<string> := ["deadline", "exam", "meeting", "task"]
  const PreferenceKeywords: seq<string> := ["like", "prefer", "favorite"]

  /** Importance in tenths: the base score 0.5, the cap 1.0, the store threshold 0.6. */
  const BaseImportance := 5
  const MaxImportance := 10
  const ImportanceThreshold := 6

  /** `recall_memory`'s default `limit`. */
  const DefaultRecallLimit := 5

  const AccessDeniedReply := "Access Denied: I can only store memories for my recognized owner."
  const LowPriorityReply := "Okay, noted. I may not prioritize this information."
  const StoredReply := "Got it. I've added that to my long-term memory."
  const PrivacyShieldReply := "Privacy Shield: I cannot reveal the owner's personal information."
  const BlankSlateReply := "My memory is currently a blank slate."
  const RecallHeader := "Here is what I remember:\n"

  // ---------------------------------------------------------------------------
  // Importance scoring
  // ---------------------------------------------------------------------------

  predicate Distinct<T(==)>(s: seq<T>) {
    forall i, j :: 0 <= i < j < |s| ==> s[i] != s[j]
  }

  /** The keywords of the list that occur in `text`. */
  function MatchedKeywords(keywords: seq<string>, text: string): set<string> {
    set k | k in keywords && Contains(text, k)
  }

  /** The number of list entries that occur in `text`, each counted once
      however often it occurs. */
  function MatchCount(keywords: seq<string>, text: string): (n: nat)
    ensures n <= |keywords|
    ensures n == 0 <==> !ContainsAny(text, keywords)
  {
    if keywords == [] then 0
    else
      var init := keywords[..|keywords| - 1];
      var last := keywords[|keywords| - 1];
      assert keywords == init + [last];
      MatchCount(init, text) + (if Contains(text, last) then 1 else 0)
  }

  lemma MatchedSnoc(init: seq<string>, last: string, text: string)
    ensures MatchedKeywords(init + [last], text)
         == MatchedKeywords(init, text) + (if Contains(text, last) then {last} else {})
  {
    assert forall k :: k in init + [last] <==> k in init || k == last;
  }

  lemma LastNotInInit(keywords: seq<string>)
    requires Distinct(keywords) && keywords != []
    ensures keywords[|keywords| - 1] !in keywords[..|keywords| - 1]
    ensures Distinct(keywords[..|keywords| - 1])
  {
    var init := keywords[..|keywords| - 1];
    forall i | 0 <= i < |init| ensures init[i] != keywords[|keywords| - 1] {
      assert init[i] == keywords[i];
    }
  }

  /** With a duplicate-free list the count is the number of distinct matched keywords. */
  lemma {:induction false} MatchCountIsDistinctMatches(keywords: seq<string>, text: string)
    requires Distinct(keywords)
    ensures MatchCount(keywords, text) == |MatchedKeywords(keywords, text)|
  {
    if keywords != [] {
      var init := keywords[..|keywords| - 1];
      var last := keywords[|keywords| - 1];
      assert keywords == init + [last];
      LastNotInInit(keywords);
      MatchCountIsDistinctMatches(init, text);
      MatchedSnoc(init, last, text);
      assert last !in MatchedKeywords(init, text);
    }
  }

  /** `compute_importance`, in tenths. */
  function Importance(text: string): (tenths: int)
    ensures BaseImportance <= tenths <= MaxImportance
    ensures tenths >= ImportanceThreshold <==> ContainsAny(Lower(text), ImportanceKeywords)
  {
    var k := MatchCount(ImportanceKeywords, Lower(text));
    if BaseImportance + k <= MaxImportance then BaseImportance + k else MaxImportance
  }

  /** `compute_importance`: add one tenth per keyword found, then cap. */
  method ComputeImportance(text: string) returns (tenths: int)
    ensures tenths == Importance(text)
  {
    var score := BaseImportance;
    var textLower := Lower(text);
    for i := 0 to |ImportanceKeywords|
      invariant score == BaseImportance + MatchCount(ImportanceKeywords[..i], textLower)
    {
      assert ImportanceKeywords[..i + 1][..i] == ImportanceKeywords[..i];
      if Contains(textLower, ImportanceKeywords[i]) {
        score := score + 1;
      }
    }
    assert ImportanceKeywords[..|ImportanceKeywords|] == ImportanceKeywords;
    tenths := if score <= MaxImportance then score else MaxImportance;
  }

  lemma ImportanceKeywordsDistinct()
    ensures Distinct(ImportanceKeywords)
  {
  }

  /** Importance is 0.5 plus 0.1 per distinct keyword found, capped at 1.0;
      five or more distinct keywords give exactly the cap. */
  lemma ImportanceCountsDistinctKeywords(text: string)
    ensures var m := |MatchedKeywords(ImportanceKeywords, Lower(text))|;
      Importance(text) == (if BaseImportance + m <= MaxImportance then BaseImportance + m else MaxImportance)
    ensures |MatchedKeywords(ImportanceKeywords, Lower(text))| >= 5 ==> Importance(text) == MaxImportance
  {
    ImportanceKeywordsDistinct();
    MatchCountIsDistinctMatches(ImportanceKeywords, Lower(text));
  }

  /** Saying something twice does not make it more important. */
  lemma ImportanceIgnoresRepetition(text: string)
    ensures Importance(text + " " + text) == Importance(text)
  {
    var l := Lower(text);
    LowerConcat(text + " ", text);
    LowerConcat(text, " ");
    assert Lower(" ") == " ";
    assert Lower(text + " " + text) == l + [' '] + l;
    forall k | k in ImportanceKeywords ensures Contains(l + [' '] + l, k) <==> Contains(l, k) {
      ContainsAroundSeparator(l, ' ', l, k);
    }
    assert MatchedKeywords(ImportanceKeywords, l + [' '] + l) == MatchedKeywords(ImportanceKeywords, l);
    ImportanceCountsDistinctKeywords(text);
    ImportanceCountsDistinctKeywords(text + " " + text);
  }

  // ---------------------------------------------------------------------------
  // Category inference
  // ---------------------------------------------------------------------------

  datatype MemoryType = Task | Preference | Fact {
    /** The text stored in the `memory_type` column. */
    function Name(): string {
      match this
      case Task => "task"
      case Preference => "preference"
      case Fact => "fact"
    }
  }

  /** `infer_memory_type`: task keywords win over preference keywords, and a
      text with neither is a fact. */
  function InferMemoryType(text: string): (t: MemoryType)
    ensures t == Task <==> exists k :: k in TaskKeywords && Contains(Lower(text), k)
    ensures t == Preference <==>
      (forall k :: k in TaskKeywords ==> !Contains(Lower(text), k))
      && (exists k :: k in PreferenceKeywords && Contains(Lower(text), k))
    ensures t == Fact <==> forall k :: k in TaskKeywords + PreferenceKeywords ==> !Contains(Lower(text), k)
  {
    var textLower := Lower(text);
    if ContainsAny(textLower, TaskKeywords) then Task
    else if ContainsAny(textLower, PreferenceKeywords) then Preference
    else Fact
  }

  // ---------------------------------------------------------------------------
  // The table and the store operation
  // ---------------------------------------------------------------------------

  datatype MemoryRecord = MemoryRecord(
    id: nat, content: string, memoryType: MemoryType, importance: int, createdAt: int)

  /** The `memory` table: rows in insertion order and the next AUTOINCREMENT id. */
  datatype MemoryTable = MemoryTable(rows: seq<MemoryRecord>, nextId: nat)

  /** A record as the store operation writes it: category and importance
      computed from its content, the importance at or above the threshold. */
  predicate Scored(r: MemoryRecord) {
    r.memoryType == InferMemoryType(r.content)
    && r.importance == Importance(r.content)
    && r.importance >= ImportanceThreshold
  }

  /** Ids start at 1, increase with insertion and stay below `nextId`; every row is scored. */
  predicate WellFormed(t: MemoryTable) {
    && 1 <= t.nextId
    && (forall i, j :: 0 <= i < j < |t.rows| ==> t.rows[i].id < t.rows[j].id)
    && (forall i :: 0 <= i < |t.rows| ==> 1 <= t.rows[i].id < t.nextId)
    && (forall i :: 0 <= i < |t.rows| ==> Scored(t.rows[i]))
  }

  datatype StoreDecision = Denied | Declined | Accepted(memoryType: MemoryType, importance: int)

  /** What `store_memory` decides: deny any mode but OWNER, decline text
      below the threshold (no keyword at all), otherwise accept with the
      inferred category and computed importance. */
  function DecideStore(content: string, accessMode: string): (d: StoreDecision)
    ensures d.Denied? <==> accessMode != Owner
    ensures d.Accepted? <==> accessMode == Owner && ContainsAny(Lower(content), ImportanceKeywords)
    ensures d.Accepted? ==>
      d.memoryType == InferMemoryType(content)
      && d.importance == Importance(content) && d.importance >= ImportanceThreshold
  {
    if accessMode != Owner then Denied
    else if Importance(content) < ImportanceThreshold then Declined
    else Accepted(InferMemoryType(content), Importance(content))
  }

  /** `store_memory` and `recall_memory` default to `"GUEST"`: a caller that
      names no access mode can neither store nor recall. */
  lemma GuestByDefault(t: MemoryTable, content: string, now: int, limit: nat)
    ensures DecideStore(content, Guest) == Denied
    ensures StoreEffect(t, content, Guest, now) == t
    ensures RecallText(t.rows, Guest, limit) == PrivacyShieldReply
  {
  }

  function StoreReply(d: StoreDecision): string {
    match d
    case Denied => AccessDeniedReply
    case Declined => LowPriorityReply
    case Accepted(_, _) => StoredReply
  }

  /** The table after `store_memory(content, accessMode)` at clock value `now`:
      one new last row on acceptance, the same table otherwise. */
  function StoreEffect(t: MemoryTable, content: string, accessMode: string, now: int): (t': MemoryTable)
    ensures accessMode != Owner ==> t' == t
    ensures !DecideStore(content, accessMode).Accepted? ==> t' == t
    ensures t.rows <= t'.rows
    ensures |t'.rows| == |t.rows| + (if DecideStore(content, accessMode).Accepted? then 1 else 0)
  {
    match DecideStore(content, accessMode)
    case Accepted(memoryType, importance) =>
      MemoryTable(t.rows + [MemoryRecord(t.nextId, content, memoryType, importance, now)], t.nextId + 1)
    case _ => t
  }

  /** An accepted store adds one record holding the content, its category,
      its importance and the clock value, under the next id; the earlier rows
      are untouched and every one of them has a smaller id. */
  lemma StoreAppendsRecord(t: MemoryTable, content: string, accessMode: string, now: int)
    requires WellFormed(t)
    requires DecideStore(content, accessMode).Accepted?
    ensures var t' := StoreEffect(t, content, accessMode, now);
      && t'.rows[..|t.rows|] == t.rows
      && t'.rows[|t.rows|] == MemoryRecord(t.nextId, content, InferMemoryType(content), Importance(content), now)
      && (forall i :: 0 <= i < |t.rows| ==> t.rows[i].id < t'.rows[|t.rows|].id)
  {
  }

  /** The store operation keeps the table well formed. */
  lemma StoreKeepsWellFormed(t: MemoryTable, content: string, accessMode: string, now: int)
    requires WellFormed(t)
    ensures WellFormed(StoreEffect(t, content, accessMode, now))
  {
    var t' := StoreEffect(t, content, accessMode, now);
    if DecideStore(content, accessMode).Accepted? {
      var r := MemoryRecord(t.nextId, content, InferMemoryType(content), Importance(content), now);
      assert t'.rows == t.rows + [r] && t'.nextId == t.nextId + 1;
      assert Scored(r);
      forall i, j | 0 <= i < j < |t'.rows| ensures t'.rows[i].id < t'.rows[j].id {
        assert t'.rows[i] == t.rows[i];
        if j < |t.rows| { assert t'.rows[j] == t.rows[j]; }
      }
      forall i | 0 <= i < |t'.rows| ensures 1 <= t'.rows[i].id < t'.nextId && Scored(t'.rows[i]) {
        if i < |t.rows| { assert t'.rows[i] == t.rows[i]; }
      }
    }
  }

  // ---------------------------------------------------------------------------
  // Recall: ORDER BY created_at DESC, id DESC LIMIT n
  // ---------------------------------------------------------------------------

  /** `a` may be listed before `b`: later clock value, or same clock value and larger id. */
  predicate RanksBefore(a: MemoryRecord, b: MemoryRecord) {
    a.createdAt > b.createdAt || (a.createdAt == b.createdAt && a.id >= b.id)
  }

  predicate Ranked(s: seq<MemoryRecord>) {
    forall i, j :: 0 <= i < j < |s| ==> RanksBefore(s[i], s[j])
  }

  function InsertRanked(x: MemoryRecord, s: seq<MemoryRecord>): (r: seq<MemoryRecord>)
    ensures multiset(r) == multiset(s) + multiset{x}
  {
    if s == [] || RanksBefore(x, s[0]) then [x] + s
    else
      assert s == [s[0]] + s[1..];
      [s[0]] + InsertRanked(x, s[1..])
  }

  lemma {:induction false} InsertRankedKeepsOrder(x: MemoryRecord, s: seq<MemoryRecord>)
    requires Ranked(s)
    ensures Ranked(InsertRanked(x, s))
  {
    if s != [] && !RanksBefore(x, s[0]) {
      var rest := InsertRanked(x, s[1..]);
      InsertRankedKeepsOrder(x, s[1..]);
      assert s == [s[0]] + s[1..];
      forall k | 0 <= k < |rest| ensures RanksBefore(s[0], rest[k]) {
        assert rest[k] in multiset(rest);
        if rest[k] != x {
          assert rest[k] in multiset(s[1..]);
          var j :| 0 <= j < |s[1..]| && s[1..][j] == rest[k];
          assert s[j + 1] == rest[k];
        }
      }
      assert InsertRanked(x, s) == [s[0]] + rest;
    }
  }

  /** The rows as the query returns them before LIMIT applies. */
  function SortRecent(rows: seq<MemoryRecord>): (r: seq<MemoryRecord>)
    ensures multiset(r) == multiset(rows)
    ensures |r| == |rows|
  {
    if rows == [] then []
    else
      assert rows == [rows[0]] + rows[1..];
      InsertRanked(rows[0], SortRecent(rows[1..]))
  }

  lemma {:induction false} SortRecentRanked(rows: seq<MemoryRecord>)
    ensures Ranked(SortRecent(rows))
  {
    if rows != [] {
      SortRecentRanked(rows[1..]);
      InsertRankedKeepsOrder(rows[0], SortRecent(rows[1..]));
    }
  }

  /** An id names one record: no two different records share it. */
  predicate IdsIdentify(s: seq<MemoryRecord>) {
    forall x, y :: x in s && y in s && x.id == y.id ==> x == y
  }

  lemma RankedHeadFirst(s: seq<MemoryRecord>, x: MemoryRecord)
    requires Ranked(s) && x in s
    ensures RanksBefore(s[0], x)
  {
    var j :| 0 <= j < |s| && s[j] == x;
    if j > 0 {
      assert RanksBefore(s[0], s[j]);
    }
  }

  lemma SameTail(a: seq<MemoryRecord>, b: seq<MemoryRecord>)
    requires a != [] && b != [] && a[0] == b[0] && multiset(a) == multiset(b)
    ensures multiset(a[1..]) == multiset(b[1..])
  {
    assert a == [a[0]] + a[1..] && b == [b[0]] + b[1..];
    assert multiset(a[1..]) == multiset(a) - multiset{a[0]};
    assert multiset(b[1..]) == multiset(b) - multiset{a[0]};
  }

  lemma IdsIdentifyTail(a: seq<MemoryRecord>)
    requires a != [] && IdsIdentify(a)
    ensures IdsIdentify(a[1..])
  {
    forall x, y | x in a[1..] && y in a[1..] && x.id == y.id ensures x == y {
      assert x in a && y in a;
    }
  }

  /** Under an id that identifies records, there is only one ranked order. */
  lemma {:induction false} RankedUnique(a: seq<MemoryRecord>, b: seq<MemoryRecord>)
    requires Ranked(a) && Ranked(b) && multiset(a) == multiset(b) && IdsIdentify(a)
    ensures a == b
    decreases |a|
  {
    assert |a| == |multiset(a)| == |b|;
    if a != [] {
      assert a[0] in multiset(b) && b[0] in multiset(a);
      RankedHeadFirst(b, a[0]);
      RankedHeadFirst(a, b[0]);
      assert a[0] == b[0];
      SameTail(a, b);
      IdsIdentifyTail(a);
      RankedUnique(a[1..], b[1..]);
      assert a == [a[0]] + a[1..] && b == [b[0]] + b[1..];
    }
  }

  /** The order in which rows were inserted does not change what recall lists. */
  lemma InsertionOrderIrrelevant(rows: seq<MemoryRecord>, shuffled: seq<MemoryRecord>)
    requires multiset(shuffled) == multiset(rows) && IdsIdentify(rows)
    ensures SortRecent(shuffled) == SortRecent(rows)
  {
    SortRecentRanked(rows);
    SortRecentRanked(shuffled);
    var s := SortRecent(rows);
    assert IdsIdentify(s) by {
      forall x, y | x in s && y in s && x.id == y.id ensures x == y {
        assert x in multiset(s) && y in multiset(s);
        assert x in rows && y in rows;
      }
    }
    RankedUnique(s, SortRecent(shuffled));
  }

  function Reverse(s: seq<MemoryRecord>): (r: seq<MemoryRecord>)
    ensures |r| == |s| && forall i :: 0 <= i < |s| ==> r[i] == s[|s| - 1 - i]
  {
    if s == [] then [] else Reverse(s[1..]) + [s[0]]
  }

  lemma {:induction false} ReversePermutes(s: seq<MemoryRecord>)
    ensures multiset(Reverse(s)) == multiset(s)
  {
    if s != [] {
      ReversePermutes(s[1..]);
      assert s == [s[0]] + s[1..];
    }
  }

  /** Ids increase and clock values never decrease along the table. */
  predicate Chronological(rows: seq<MemoryRecord>) {
    forall i, j :: 0 <= i < j < |rows| ==> rows[i].id < rows[j].id && rows[i].createdAt <= rows[j].createdAt
  }

  lemma ReverseRanked(rows: seq<MemoryRecord>)
    requires Chronological(rows)
    ensures Ranked(Reverse(rows)) && IdsIdentify(Reverse(rows))
  {
    var rev := Reverse(rows);
    forall i, j | 0 <= i < j < |rev| ensures RanksBefore(rev[i], rev[j]) {
      assert rev[i] == rows[|rows| - 1 - i] && rev[j] == rows[|rows| - 1 - j];
    }
    forall x, y | x in rev && y in rev && x.id == y.id ensures x == y {
      var p :| 0 <= p < |rev| && rev[p] == x;
      var q :| 0 <= q < |rev| && rev[q] == y;
      assert x == rows[|rows| - 1 - p] && y == rows[|rows| - 1 - q];
    }
  }

  /** Under a clock that never goes back, recall lists rows newest-inserted first. */
  lemma ChronologicalRecall(t: MemoryTable)
    requires WellFormed(t)
    requires forall i, j :: 0 <= i < j < |t.rows| ==> t.rows[i].createdAt <= t.rows[j].createdAt
    ensures SortRecent(t.rows) == Reverse(t.rows)
  {
    assert Chronological(t.rows);
    ReverseRanked(t.rows);
    ReversePermutes(t.rows);
    SortRecentRanked(t.rows);
    RankedUnique(Reverse(t.rows), SortRecent(t.rows));
  }

  /** The rows `recall_memory` fetches: the `limit` highest-ranked ones, in rank order. */
  function SelectRecent(rows: seq<MemoryRecord>, limit: nat): (sel: seq<MemoryRecord>)
    ensures |sel| == if limit < |rows| then limit else |rows|
    ensures Ranked(sel)
    ensures multiset(sel) <= multiset(rows)
  {
    var sorted := SortRecent(rows);
    SortRecentRanked(rows);
    var n := if limit < |sorted| then limit else |sorted|;
    assert sorted == sorted[..n] + sorted[n..];
    sorted[..n]
  }

  /** In a ranked sequence, everything before a cut ranks before everything after it. */
  lemma RankedCut(s: seq<MemoryRecord>, n: nat)
    requires Ranked(s) && n <= |s|
    ensures forall q, r :: q in s[..n] && r in s[n..] ==> RanksBefore(q, r)
  {
    forall q, r | q in s[..n] && r in s[n..] ensures RanksBefore(q, r) {
      var i :| 0 <= i < n && s[..n][i] == q;
      var j :| 0 <= j < |s| - n && s[n..][j] == r;
      assert s[i] == q && s[n + j] == r;
    }
  }

  lemma MultisetCut(s: seq<MemoryRecord>, n: nat)
    requires n <= |s|
    ensures multiset(s) - multiset(s[..n]) == multiset(s[n..])
  {
    assert s == s[..n] + s[n..];
  }

  /** Every row left out by LIMIT ranks after every row that was selected. */
  lemma SelectRecentIsTop(rows: seq<MemoryRecord>, limit: nat)
    ensures var sel := SelectRecent(rows, limit);
      forall q, r :: q in sel && r in multiset(rows) - multiset(sel) ==> RanksBefore(q, r)
  {
    var sorted := SortRecent(rows);
    SortRecentRanked(rows);
    var sel := SelectRecent(rows, limit);
    var n := |sel|;
    assert sel == sorted[..n];
    MultisetCut(sorted, n);
    RankedCut(sorted, n);
    forall q, r | q in sel && r in multiset(rows) - multiset(sel) ensures RanksBefore(q, r) {
      assert r in multiset(sorted[n..]);
    }
  }

  /** One line of the listing: `"{idx}. ({type}) {content}\n"`. */
  function RecallLine(index: nat, r: MemoryRecord): string {
    NatToString(index) + ". (" + r.memoryType.Name() + ") " + r.content + "\n"
  }

  /** The numbered lines for `sel`, counting from 1. */
  function Listing(sel: seq<MemoryRecord>): string {
    if sel == [] then ""
    else Listing(sel[..|sel| - 1]) + RecallLine(|sel|, sel[|sel| - 1])
  }

  lemma {:induction false} ListingPrefix(sel: seq<MemoryRecord>, n: nat)
    requires n <= |sel|
    ensures Listing(sel[..n]) <= Listing(sel)
    decreases |sel| - n
  {
    if n < |sel| {
      ListingPrefix(sel, n + 1);
      assert sel[..n + 1][..n] == sel[..n];
    } else {
      assert sel[..n] == sel;
    }
  }

  /** Line k + 1 of the listing, right after lines 1..k, shows row k of the selection. */
  lemma ListingLineAt(sel: seq<MemoryRecord>, k: nat)
    requires k < |sel|
    ensures Listing(sel[..k]) + RecallLine(k + 1, sel[k]) <= Listing(sel)
  {
    assert sel[..k + 1][..k] == sel[..k];
    ListingPrefix(sel, k + 1);
  }

  /** What `recall_memory(accessMode, limit)` returns for a table with `rows`. */
  function RecallText(rows: seq<MemoryRecord>, accessMode: string, limit: nat): (response: string)
    ensures accessMode != Owner ==> response == PrivacyShieldReply
    ensures accessMode == Owner ==> (response == BlankSlateReply <==> rows == [] || limit == 0)
    ensures accessMode == Owner && rows != [] && limit > 0 ==>
      RecallHeader <= response
      && response[|RecallHeader|..] == Listing(SelectRecent(rows, limit))
  {
    if accessMode != Owner then PrivacyShieldReply
    else
      var selected := SelectRecent(rows, limit);
      if selected == [] then BlankSlateReply
      else
        assert (RecallHeader + Listing(selected))[0] == 'H';
        RecallHeader + Listing(selected)
  }

  /** OWNER-only memory, as held by `FridayMemory`. */
  class FridayMemory {
    var rows: seq<MemoryRecord>
    var nextId: nat

    function Snapshot(): MemoryTable
      reads this
    {
      MemoryTable(rows, nextId)
    }

    ghost predicate Valid()
      reads this
    {
      WellFormed(Snapshot())
    }

    /** Opening the database keeps whatever table is already there
        (`CREATE TABLE IF NOT EXISTS`); a new database has `MemoryTable([], 1)`. */
    constructor (existing: MemoryTable)
      requires WellFormed(existing)
      ensures Valid() && Snapshot() == existing
    {
      rows := existing.rows;
      nextId := existing.nextId;
    }

    /** `store_memory`: gate on OWNER, score, then insert one row. */
    method StoreMemory(content: string, accessMode: string, now: int) returns (reply: string)
      requires Valid()
      modifies this
      ensures Valid()
      ensures reply == StoreReply(DecideStore(content, accessMode))
      ensures Snapshot() == StoreEffect(old(Snapshot()), content, accessMode, now)
    {
      StoreKeepsWellFormed(Snapshot(), content, accessMode, now);
      if accessMode != Owner {
        return AccessDeniedReply;
      }
      var importance := ComputeImportance(content);
      if importance < ImportanceThreshold {
        return LowPriorityReply;
      }
      var memoryType := InferMemoryType(content);
      rows := rows + [MemoryRecord(nextId, content, memoryType, importance, now)];
      nextId := nextId + 1;
      reply := StoredReply;
    }

    /** `recall_memory`: gate on OWNER, fetch, then build the numbered listing. */
    method RecallMemory(accessMode: string, limit: nat) returns (response: string)
      ensures response == RecallText(rows, accessMode, limit)
    {
      if accessMode != Owner {
        return PrivacyShieldReply;
      }
      var selected := SelectRecent(rows, limit);
      if selected == [] {
        return BlankSlateReply;
      }
      var lines := ListRecords(selected);
      response := RecallHeader + lines;
    }
  }

  /** The numbered lines of `recall_memory`, built one row at a time. */
  method ListRecords(selected: seq<MemoryRecord>) returns (lines: string)
    ensures lines == Listing(selected)
  {
    lines := "";
    for i := 0 to |selected|
      invariant lines == Listing(selected[..i])
    {
      assert selected[..i + 1][..i] == selected[..i];
      lines := lines + RecallLine(i + 1, selected[i]);
    }
    assert selected[..|selected|] == selected;
  }
}
