/**
  Conflict detection and resolution for the ledger, ledger/src/conflict.rs. Votes decide
  first and timestamps break ties, as the code does.
 */
module Conflict {
  import opened Basics

  /** JSON values; numbers that are not integers are kept as written. */
  datatype Json =
    | Null
    | Bool(b: bool)
    | Int(n: int)
    | Float(text: string)
    | Str(s: string)
    | Arr(items: seq<Json>)
    | Obj(fields: map<string, Json>)

  function Field(v: Json, key: string): Json {
    if v.Obj? && key in v.fields then v.fields[key] else Null
  }

  function AsStr(v: Json): Option<string> {
    if v.Str? then Some(v.s) else None
  }

  function IntOrZero(v: Json): int {
    if v.Int? && -0x8000_0000_0000_0000 <= v.n < 0x8000_0000_0000_0000 then v.n else 0
  }

  function Id(entry: Json): Option<string> {
    AsStr(Field(entry, "id"))
  }

  function Timestamp(entry: Json): string {
    var t := AsStr(Field(entry, "timestamp"));
    if t.Some? then t.value else ""
  }

  /** Lexicographic order of strings. */
  predicate StrLess(a: string, b: string) {
    b != [] && (a == [] || a[0] < b[0] || (a[0] == b[0] && StrLess(a[1..], b[1..])))
  }

  datatype LedgerConflict = LedgerConflict(localEntry: Json, remoteEntry: Json, localSeq: int, remoteSeq: int,
                                           localTimestamp: string, remoteTimestamp: string)
  {
    /** The remote entry is newer. */
    predicate ResolveByTimestamp() {
      StrLess(localTimestamp, remoteTimestamp)
    }

    predicate ResolveByMajority(votesForLocal: nat, votesForRemote: nat) {
      if votesForRemote > votesForLocal then true
      else if votesForLocal > votesForRemote then false
      else ResolveByTimestamp()
    }
  }

  function NewConflict(local: Json, remote: Json): LedgerConflict {
    LedgerConflict(local, remote, IntOrZero(Field(local, "seq")), IntOrZero(Field(remote, "seq")),
                   Timestamp(local), Timestamp(remote))
  }

  // ---------- Entries and their order, in plain terms ----------

  predicate HasText(entry: Json, key: string, text: string) {
    entry.Obj? && key in entry.fields && entry.fields[key] == Str(text)
  }

  /** The text under the key `timestamp`, or nothing if there is none. */
  ghost predicate IsTimestampOf(t: string, entry: Json) {
    HasText(entry, "timestamp", t) || (t == "" && forall s :: !HasText(entry, "timestamp", s))
  }

  /** The 64-bit number under the key `seq`, or zero if there is none. */
  ghost predicate IsSeqOf(n: int, entry: Json) {
    if entry.Obj? && "seq" in entry.fields && entry.fields["seq"].Int?
       && -9223372036854775808 <= entry.fields["seq"].n <= 9223372036854775807
    then n == entry.fields["seq"].n else n == 0
  }

  /** `a` comes before `b` as texts do: it is the beginning of it, or smaller at the first
      character at which they differ. */
  ghost predicate Precedes(a: string, b: string) {
    a < b || exists k :: 0 <= k < |a| && k < |b| && a[..k] == b[..k] && a[k] < b[k]
  }

  lemma {:induction false} StrLessIffPrecedes(a: string, b: string)
    ensures StrLess(a, b) <==> Precedes(a, b)
  {
    if a != [] && b != [] {
      if a[0] == b[0] {
        StrLessIffPrecedes(a[1..], b[1..]);
        FirstCharacter(a, b);
      } else if a[0] < b[0] {
        assert a[..0] == b[..0];
      }
    }
  }

  lemma FirstCharacter(a: string, b: string)
    requires a != [] && b != [] && a[0] == b[0]
    ensures Precedes(a, b) <==> Precedes(a[1..], b[1..])
  {
    assert a == [a[0]] + a[1..] && b == [b[0]] + b[1..];
    forall k | 0 < k < |a| && k < |b|
      ensures a[..k] == b[..k] <==> a[1..][..k - 1] == b[1..][..k - 1]
    {
      assert a[..k] == [a[0]] + a[1..][..k - 1] && b[..k] == [b[0]] + b[1..][..k - 1];
    }
    if k :| 0 <= k < |a[1..]| && k < |b[1..]| && a[1..][..k] == b[1..][..k] && a[1..][k] < b[1..][k] {
      assert a[..k + 1] == b[..k + 1] && a[k + 1] < b[k + 1];
    }
    if k :| 0 <= k < |a| && k < |b| && a[..k] == b[..k] && a[k] < b[k] {
      assert a[1..][..k - 1] == b[1..][..k - 1] && a[1..][k - 1] < b[1..][k - 1];
    }
  }

  /** What a conflict says of the two entries, and what makes their identifiers. */
  lemma ConflictDescribes(mine: Json, theirs: Json)
    ensures var c := NewConflict(mine, theirs);
      && c.localEntry == mine && c.remoteEntry == theirs
      && IsSeqOf(c.localSeq, mine) && IsSeqOf(c.remoteSeq, theirs)
      && IsTimestampOf(c.localTimestamp, mine) && IsTimestampOf(c.remoteTimestamp, theirs)
    ensures forall id :: Id(mine) == Some(id) <==> HasText(mine, "id", id)
  {
    if Timestamp(mine) == "" {
      assert forall s :: HasText(mine, "timestamp", s) ==> s == "";
    }
    if Timestamp(theirs) == "" {
      assert forall s :: HasText(theirs, "timestamp", s) ==> s == "";
    }
  }

  /** The remote entry wins a conflict if it has more votes, or as many and a later
      timestamp. */
  ghost predicate RemoteWins(c: LedgerConflict, votesForLocal: nat, votesForRemote: nat) {
    || votesForRemote > votesForLocal
    || (votesForRemote == votesForLocal && Precedes(c.localTimestamp, c.remoteTimestamp))
  }

  lemma ResolutionIs(c: LedgerConflict, votesForLocal: nat, votesForRemote: nat)
    ensures Resolution(c, votesForLocal, votesForRemote)
         == if RemoteWins(c, votesForLocal, votesForRemote) then UseRemote(c.remoteEntry) else UseLocal(c.localEntry)
  {
    StrLessIffPrecedes(c.localTimestamp, c.remoteTimestamp);
  }

  datatype ResolveResult = UseLocal(entry: Json) | UseRemote(entry: Json)

  function Resolution(c: LedgerConflict, votesForLocal: nat, votesForRemote: nat): ResolveResult {
    if c.ResolveByMajority(votesForLocal, votesForRemote) then UseRemote(c.remoteEntry) else UseLocal(c.localEntry)
  }

  // ---------- Detection, by scanning ----------

  /** Number of local entries up to and including the last one with the given id; zero if
      there is none. */
  function UpToLast(local: seq<Json>, id: string): (k: nat)
    ensures k <= |local| && (k > 0 ==> Id(local[k - 1]) == Some(id))
    ensures forall j :: k <= j < |local| ==> Id(local[j]) != Some(id)
  {
    if local == [] then 0
    else if Id(local[|local| - 1]) == Some(id) then |local|
    else UpToLast(local[..|local| - 1], id)
  }

  function LastWithId(local: seq<Json>, id: string): Option<Json> {
    var k := UpToLast(local, id);
    if k == 0 then None else Some(local[k - 1])
  }

  /** The conflict of one remote entry with the local ones, if there is one. */
  function ConflictsOf(local: seq<Json>, remote: Json): seq<LedgerConflict> {
    match Id(remote)
    case None => []
    case Some(id) =>
      match LastWithId(local, id)
      case None => []
      case Some(mine) => if mine != remote then [NewConflict(mine, remote)] else []
  }

  function ScanConflicts(local: seq<Json>, remote: seq<Json>): seq<LedgerConflict> {
    if remote == [] then []
    else ScanConflicts(local, remote[..|remote| - 1]) + ConflictsOf(local, remote[|remote| - 1])
  }

  /** Local entry `k` is the last with its id, and remote entry `j` is another version of it. */
  ghost predicate Clash(local: seq<Json>, remote: seq<Json>, k: nat, j: nat) {
    && k < |local| && j < |remote|
    && Id(remote[j]).Some? && Id(local[k]) == Id(remote[j]) && local[k] != remote[j]
    && forall i :: k < i < |local| ==> Id(local[i]) != Id(remote[j])
  }

  lemma LastIsUnique(local: seq<Json>, id: string, k: nat)
    requires k < |local| && Id(local[k]) == Some(id) && forall i :: k < i < |local| ==> Id(local[i]) != Some(id)
    ensures UpToLast(local, id) == k + 1
  {
  }

  lemma {:induction false} ScanIsSound(local: seq<Json>, remote: seq<Json>, c: LedgerConflict) returns (k: nat, j: nat)
    requires c in ScanConflicts(local, remote)
    ensures Clash(local, remote, k, j) && c == NewConflict(local[k], remote[j])
  {
    var n := |remote| - 1;
    if c in ScanConflicts(local, remote[..n]) {
      k, j := ScanIsSound(local, remote[..n], c);
    } else {
      k, j := UpToLast(local, Id(remote[n]).value) - 1, n;
    }
  }

  lemma {:induction false} ScanIsComplete(local: seq<Json>, remote: seq<Json>, k: nat, j: nat)
    requires Clash(local, remote, k, j)
    ensures NewConflict(local[k], remote[j]) in ScanConflicts(local, remote)
  {
    var n := |remote| - 1;
    if j < n {
      assert remote[..n][j] == remote[j];
      ScanIsComplete(local, remote[..n], k, j);
    } else {
      LastIsUnique(local, Id(remote[n]).value, k);
      assert ConflictsOf(local, remote[n]) == [NewConflict(local[k], remote[j])];
    }
  }

  /** The conflicts found are those pairs, and no others. */
  lemma ScanFindsClashes(local: seq<Json>, remote: seq<Json>, c: LedgerConflict)
    ensures c in ScanConflicts(local, remote) <==>
              exists k: nat, j: nat :: Clash(local, remote, k, j) && c == NewConflict(local[k], remote[j])
  {
    if c in ScanConflicts(local, remote) {
      var k, j := ScanIsSound(local, remote, c);
    }
    forall k: nat, j: nat | Clash(local, remote, k, j) && c == NewConflict(local[k], remote[j])
      ensures c in ScanConflicts(local, remote)
    {
      ScanIsComplete(local, remote, k, j);
    }
  }

  /** Positions in increasing order, each once. */
  predicate Increasing(js: seq<nat>) {
    forall a, b :: 0 <= a < b < |js| ==> js[a] < js[b]
  }

  /** Conflicts found one by one among the first `n` remote entries: the entries concerned in
      the order in which they came, none left out and none twice, each with the local entry
      it clashes with. */
  ghost predicate ListsClashes(local: seq<Json>, remote: seq<Json>, n: nat, found: seq<LedgerConflict>,
                               ks: seq<nat>, js: seq<nat>) {
    && |ks| == |js| == |found| && Increasing(js)
    && (forall i :: 0 <= i < |found| ==>
          js[i] < n && Clash(local, remote, ks[i], js[i]) && found[i] == NewConflict(local[ks[i]], remote[js[i]]))
    && forall k: nat, j: nat :: j < n && Clash(local, remote, k, j) ==> j in js
  }

  lemma ScanOneMore(local: seq<Json>, remote: seq<Json>, n: nat)
    requires n < |remote|
    ensures ScanConflicts(local, remote[..n + 1]) == ScanConflicts(local, remote[..n]) + ConflictsOf(local, remote[n])
  {
    assert remote[..n + 1][..n] == remote[..n];
  }

  lemma ConflictsOfOne(local: seq<Json>, remote: seq<Json>, j: nat) returns (k: nat)
    requires j < |remote|
    ensures ConflictsOf(local, remote[j]) == [] ==> forall k': nat :: !Clash(local, remote, k', j)
    ensures ConflictsOf(local, remote[j]) != [] ==>
              Clash(local, remote, k, j) && ConflictsOf(local, remote[j]) == [NewConflict(local[k], remote[j])]
  {
    k := 0;
    if Id(remote[j]).Some? {
      var id := Id(remote[j]).value;
      if UpToLast(local, id) > 0 {
        k := UpToLast(local, id) - 1;
      }
      forall k': nat | Clash(local, remote, k', j)
        ensures ConflictsOf(local, remote[j]) != []
      {
        LastIsUnique(local, id, k');
      }
    }
  }

  lemma ListedOneMore(local: seq<Json>, remote: seq<Json>, n: nat, found: seq<LedgerConflict>,
                      ks: seq<nat>, js: seq<nat>, k: nat)
    requires ListsClashes(local, remote, n, found, ks, js) && Clash(local, remote, k, n)
    ensures ListsClashes(local, remote, n + 1, found + [NewConflict(local[k], remote[n])], ks + [k], js + [n])
  {
  }

  lemma ListedNoMore(local: seq<Json>, remote: seq<Json>, n: nat, found: seq<LedgerConflict>,
                     ks: seq<nat>, js: seq<nat>)
    requires ListsClashes(local, remote, n, found, ks, js) && forall k: nat :: !Clash(local, remote, k, n)
    ensures ListsClashes(local, remote, n + 1, found, ks, js)
  {
  }

  lemma {:induction false} ScanInOrder(local: seq<Json>, remote: seq<Json>, n: nat) returns (ks: seq<nat>, js: seq<nat>)
    requires n <= |remote|
    ensures ListsClashes(local, remote, n, ScanConflicts(local, remote[..n]), ks, js)
  {
    ks, js := [], [];
    if n > 0 {
      ks, js := ScanInOrder(local, remote, n - 1);
      var found := ScanConflicts(local, remote[..n - 1]);
      var k := ConflictsOfOne(local, remote, n - 1);
      ScanOneMore(local, remote, n - 1);
      if ConflictsOf(local, remote[n - 1]) == [] {
        ListedNoMore(local, remote, n - 1, found, ks, js);
      } else {
        ListedOneMore(local, remote, n - 1, found, ks, js, k);
        ks, js := ks + [k], js + [n - 1];
      }
    }
  }

  /** The map gives for each id the last of the entries that has it. */
  ghost predicate Indexes(index: map<string, Json>, entries: seq<Json>) {
    && (forall id :: id in index <==> LastWithId(entries, id).Some?)
    && (forall id :: id in index ==> LastWithId(entries, id) == Some(index[id]))
  }

  lemma LastOneMore(entries: seq<Json>, i: nat, id: string)
    requires i < |entries|
    ensures LastWithId(entries[..i + 1], id)
         == if Id(entries[i]) == Some(id) then Some(entries[i]) else LastWithId(entries[..i], id)
  {
    assert entries[..i + 1][..i] == entries[..i];
    if Id(entries[i]) != Some(id) {
      var k := UpToLast(entries[..i], id);
      assert UpToLast(entries[..i + 1], id) == k;
      assert k > 0 ==> entries[..i + 1][k - 1] == entries[..i][k - 1];
    }
  }

  function Indexed(index: map<string, Json>, entry: Json): map<string, Json> {
    if Id(entry).Some? then index[Id(entry).value := entry] else index
  }

  lemma IndexOneMore(index: map<string, Json>, entries: seq<Json>, i: nat)
    requires i < |entries| && Indexes(index, entries[..i])
    ensures Indexes(Indexed(index, entries[i]), entries[..i + 1])
  {
    var grown := Indexed(index, entries[i]);
    forall id
      ensures id in grown <==> LastWithId(entries[..i + 1], id).Some?
      ensures id in grown ==> LastWithId(entries[..i + 1], id) == Some(grown[id])
    {
      LastOneMore(entries, i, id);
    }
  }

  datatype Stats = Stats(resolved: nat, localWins: nat, remoteWins: nat)

  function Count(s: Stats, r: ResolveResult): Stats {
    if r.UseRemote? then Stats(s.resolved + 1, s.localWins, s.remoteWins + 1)
    else Stats(s.resolved + 1, s.localWins + 1, s.remoteWins)
  }

  class ConflictResolver {
    var resolvedCount: nat
    var localWins: nat
    var remoteWins: nat

    function GetStats(): Stats
      reads this
    {
      Stats(resolvedCount, localWins, remoteWins)
    }

    constructor ()
      ensures GetStats() == Stats(0, 0, 0)
    {
      resolvedCount, localWins, remoteWins := 0, 0, 0;
    }

    /** Indexing the local entries by id finds what a nested scan would, in remote order. */
    method DetectConflicts(localEntries: seq<Json>, remoteEntries: seq<Json>) returns (conflicts: seq<LedgerConflict>)
      ensures conflicts == ScanConflicts(localEntries, remoteEntries)
    {
      var localMap: map<string, Json> := map[];
      for i := 0 to |localEntries|
        invariant Indexes(localMap, localEntries[..i])
      {
        IndexOneMore(localMap, localEntries, i);
        var id := Id(localEntries[i]);
        if id.Some? {
          localMap := localMap[id.value := localEntries[i]];
        }
      }
      assert localEntries[..|localEntries|] == localEntries;
      conflicts := [];
      for i := 0 to |remoteEntries|
        invariant conflicts == ScanConflicts(localEntries, remoteEntries[..i])
      {
        assert remoteEntries[..i + 1][..i] == remoteEntries[..i];
        var remote := remoteEntries[i];
        var remoteId := Id(remote);
        if remoteId.Some? && remoteId.value in localMap {
          var local := localMap[remoteId.value];
          if local != remote {
            conflicts := conflicts + [NewConflict(local, remote)];
          }
        }
      }
      assert remoteEntries[..|remoteEntries|] == remoteEntries;
    }

    method Resolve(conflict: LedgerConflict, votesForLocal: nat, votesForRemote: nat) returns (result: ResolveResult)
      modifies this
      ensures result == Resolution(conflict, votesForLocal, votesForRemote)
      ensures result == if RemoteWins(conflict, votesForLocal, votesForRemote) then UseRemote(conflict.remoteEntry)
                        else UseLocal(conflict.localEntry)
      ensures GetStats() == Count(old(GetStats()), result)
      ensures resolvedCount == old(resolvedCount) + 1
      ensures localWins == old(localWins) + if result.UseLocal? then 1 else 0
      ensures remoteWins == old(remoteWins) + if result.UseRemote? then 1 else 0
    {
      ResolutionIs(conflict, votesForLocal, votesForRemote);
      resolvedCount := resolvedCount + 1;
      if conflict.ResolveByMajority(votesForLocal, votesForRemote) {
        remoteWins := remoteWins + 1;
        result := UseRemote(conflict.remoteEntry);
      } else {
        localWins := localWins + 1;
        result := UseLocal(conflict.localEntry);
      }
    }
  }

  // ---------- Order of strings ----------

  lemma {:induction false} StrLessTotal(a: string, b: string)
    ensures StrLess(a, b) || StrLess(b, a) || a == b
    ensures !(StrLess(a, b) && StrLess(b, a)) && (a == b ==> !StrLess(a, b))
  {
    if a != [] && b != [] && a[0] == b[0] {
      StrLessTotal(a[1..], b[1..]);
      assert a == [a[0]] + a[1..] && b == [b[0]] + b[1..];
    }
  }

  lemma {:induction false} StrLessTransitive(a: string, b: string, c: string)
    requires StrLess(a, b) && StrLess(b, c)
    ensures StrLess(a, c)
  {
    if a != [] && a[0] == b[0] == c[0] {
      StrLessTransitive(a[1..], b[1..], c[1..]);
    }
  }

  // ---------- Convergence ----------

  type Votes = Json -> nat

  /** `b` beats `a`: more votes, or as many and a later timestamp. */
  predicate Beats(votes: Votes, b: Json, a: Json) {
    votes(b) > votes(a) || (votes(b) == votes(a) && StrLess(Timestamp(a), Timestamp(b)))
  }

  /** Where the version that is kept arrived, when the versions of one entry come in one
      after the other and each is resolved against the version kept so far. */
  function KeptIndex(votes: Votes, versions: seq<Json>): (i: nat)
    requires versions != []
    ensures i < |versions|
  {
    var n := |versions| - 1;
    if n == 0 then 0
    else
      var i := KeptIndex(votes, versions[..n]);
      var kept, next := versions[i], versions[n];
      if Resolution(NewConflict(kept, next), votes(kept), votes(next)).UseRemote? then n else i
  }

  function Kept(votes: Votes, versions: seq<Json>): Json
    requires versions != []
  {
    versions[KeptIndex(votes, versions)]
  }

  lemma BeatsTransitive(votes: Votes, c: Json, b: Json, a: Json)
    requires Beats(votes, b, a) && !Beats(votes, b, c)
    ensures Beats(votes, c, a)
  {
    StrLessTotal(Timestamp(c), Timestamp(b));
    if StrLess(Timestamp(a), Timestamp(b)) && StrLess(Timestamp(b), Timestamp(c)) {
      StrLessTransitive(Timestamp(a), Timestamp(b), Timestamp(c));
    }
  }

  lemma BeatsExclusive(votes: Votes, a: Json, b: Json)
    ensures !(Beats(votes, a, b) && Beats(votes, b, a))
  {
    StrLessTotal(Timestamp(a), Timestamp(b));
  }

  /** Of the versions with the most votes and, among those, the latest timestamp, the one
      at `i` arrived first. */
  ghost predicate EarliestGreatest(votes: Votes, versions: seq<Json>, i: nat) {
    && i < |versions|
    && (forall j :: 0 <= j < i ==> Beats(votes, versions[i], versions[j]))
    && (forall j :: i <= j < |versions| ==> !Beats(votes, versions[j], versions[i]))
  }

  lemma OneMoreVersion(votes: Votes, versions: seq<Json>, i: nat, next: Json)
    requires EarliestGreatest(votes, versions, i)
    ensures EarliestGreatest(votes, versions + [next], if Beats(votes, next, versions[i]) then |versions| else i)
  {
    BeatsExclusive(votes, next, next);
    if Beats(votes, next, versions[i]) {
      forall j | 0 <= j < |versions|
        ensures Beats(votes, next, versions[j])
      {
        BeatsExclusive(votes, next, versions[i]);
        if j < i {
          BeatsTransitive(votes, next, versions[i], versions[j]);
        } else if !Beats(votes, next, versions[j]) {
          BeatsTransitive(votes, versions[j], next, versions[i]);
        }
      }
    }
  }

  lemma KeptOneMore(votes: Votes, versions: seq<Json>, next: Json)
    requires versions != []
    ensures var i := KeptIndex(votes, versions);
      KeptIndex(votes, versions + [next]) == if Beats(votes, next, versions[i]) then |versions| else i
  {
    assert (versions + [next])[..|versions|] == versions;
  }

  /** The version kept is the earliest to arrive among the greatest. */
  lemma {:induction false} KeptIsEarliestGreatest(votes: Votes, versions: seq<Json>)
    requires versions != []
    ensures EarliestGreatest(votes, versions, KeptIndex(votes, versions))
  {
    var n := |versions| - 1;
    if n == 0 {
      BeatsExclusive(votes, versions[0], versions[0]);
    } else {
      KeptIsEarliestGreatest(votes, versions[..n]);
      KeptOneMore(votes, versions[..n], versions[n]);
      OneMoreVersion(votes, versions[..n], KeptIndex(votes, versions[..n]), versions[n]);
      assert versions[..n] + [versions[n]] == versions;
    }
  }

  lemma NothingBeatsKept(votes: Votes, versions: seq<Json>, w: Json)
    requires w in versions
    ensures !Beats(votes, w, Kept(votes, versions))
  {
    KeptIsEarliestGreatest(votes, versions);
    var i, j := KeptIndex(votes, versions), 0;
    j :| 0 <= j < |versions| && versions[j] == w;
    if j < i {
      BeatsExclusive(votes, w, versions[i]);
    }
  }

  /** Some version beats every other one. */
  ghost predicate ClearWinner(votes: Votes, versions: seq<Json>) {
    exists w :: w in versions && BeatsAllOthers(votes, versions, w)
  }

  ghost predicate BeatsAllOthers(votes: Votes, versions: seq<Json>, w: Json) {
    forall v :: v in versions && v != w ==> Beats(votes, w, v)
  }

  /** Equal votes and distinct timestamps make a clear winner. */
  lemma DistinctTimestamps(votes: Votes, versions: seq<Json>)
    requires versions != []
    requires forall a, b :: a in versions && b in versions && a != b ==>
               votes(a) == votes(b) && Timestamp(a) != Timestamp(b)
    ensures ClearWinner(votes, versions)
  {
    var best := Kept(votes, versions);
    forall v | v in versions && v != best
      ensures Beats(votes, best, v)
    {
      NothingBeatsKept(votes, versions, v);
      StrLessTotal(Timestamp(v), Timestamp(best));
    }
    assert BeatsAllOthers(votes, versions, best);
  }

  /** The same versions in some order. */
  ghost predicate IsReordering(versions: seq<Json>, reordered: seq<Json>) {
    |versions| == |reordered| && multiset(versions) == multiset(reordered)
  }

  ghost predicate OrderIrrelevant(votes: Votes, versions: seq<Json>)
    requires versions != []
  {
    forall reordered :: IsReordering(versions, reordered) ==> Kept(votes, reordered) == Kept(votes, versions)
  }

  lemma ClearWinnerIsKept(votes: Votes, versions: seq<Json>, reordered: seq<Json>, w: Json)
    requires versions != [] && IsReordering(versions, reordered)
    requires w in versions && BeatsAllOthers(votes, versions, w)
    ensures Kept(votes, reordered) == w
  {
    var kept := Kept(votes, reordered);
    assert w in multiset(reordered) && kept in multiset(reordered);
    assert w in reordered && kept in multiset(versions);
    NothingBeatsKept(votes, reordered, w);
  }

  function ToFront(versions: seq<Json>, k: nat): seq<Json>
    requires k < |versions|
  {
    [versions[k]] + (versions[..k] + versions[k + 1..])
  }

  lemma ToFrontReorders(versions: seq<Json>, k: nat)
    requires k < |versions|
    ensures IsReordering(versions, ToFront(versions, k))
  {
    assert versions == versions[..k] + [versions[k]] + versions[k + 1..];
  }

  /** A version that the one kept does not beat is itself kept once it arrives first. */
  lemma UnbeatenKeptFromFront(votes: Votes, versions: seq<Json>, k: nat)
    requires k < |versions| && !Beats(votes, Kept(votes, versions), versions[k])
    ensures Kept(votes, ToFront(versions, k)) == versions[k]
  {
    var best, reordered := Kept(votes, versions), ToFront(versions, k);
    ToFrontReorders(versions, k);
    KeptIsEarliestGreatest(votes, versions);
    KeptIsEarliestGreatest(votes, reordered);
    var i := KeptIndex(votes, reordered);
    if i > 0 {
      var w := reordered[i];
      assert w in multiset(reordered);
      assert w in multiset(versions) && Beats(votes, w, reordered[0]);
      NothingBeatsKept(votes, versions, w);
      BeatsTransitive(votes, best, w, versions[k]);
      assert false;
    }
  }

  /** Which version is kept does not depend on the order of arrival exactly if some version
      beats every other one. */
  lemma OrderIrrelevantIffClearWinner(votes: Votes, versions: seq<Json>)
    requires versions != []
    ensures OrderIrrelevant(votes, versions) <==> ClearWinner(votes, versions)
  {
    var best := Kept(votes, versions);
    if ClearWinner(votes, versions) {
      var w :| w in versions && BeatsAllOthers(votes, versions, w);
      ClearWinnerIsKept(votes, versions, versions, w);
      forall reordered | IsReordering(versions, reordered)
        ensures Kept(votes, reordered) == best
      {
        ClearWinnerIsKept(votes, versions, reordered, w);
      }
    }
    if OrderIrrelevant(votes, versions) {
      forall v | v in versions && v != best
        ensures Beats(votes, best, v)
      {
        var k :| 0 <= k < |versions| && versions[k] == v;
        if !Beats(votes, best, v) {
          UnbeatenKeptFromFront(votes, versions, k);
          ToFrontReorders(versions, k);
          assert false;
        }
      }
      assert BeatsAllOthers(votes, versions, best);
    }
  }

  const NOTE_A: Json := Obj(map["id" := Str("1"), "note" := Str("a")])

  const NOTE_B: Json := Obj(map["id" := Str("1"), "note" := Str("b")])

  lemma TieHasNoWinner(votes: Votes, a: Json, b: Json)
    requires a != b && votes(a) == votes(b) && Timestamp(a) == Timestamp(b)
    ensures !ClearWinner(votes, [a, b])
  {
    StrLessTotal(Timestamp(a), Timestamp(b));
    assert a in [a, b] && b in [a, b];
    assert !BeatsAllOthers(votes, [a, b], a) && !BeatsAllOthers(votes, [a, b], b);
  }

  /** Two versions without votes or timestamps: the order of arrival decides, and two peers
      that hold one each swap them. */
  lemma TieIsDecidedByArrival()
    ensures !ClearWinner(_ => 0, [NOTE_A, NOTE_B]) && !OrderIrrelevant(_ => 0, [NOTE_A, NOTE_B])
    ensures Resolution(NewConflict(NOTE_A, NOTE_B), 0, 0).entry != Resolution(NewConflict(NOTE_B, NOTE_A), 0, 0).entry
  {
    var votes: Votes := _ => 0;
    assert NOTE_A.fields["note"] != NOTE_B.fields["note"];
    TieHasNoWinner(votes, NOTE_A, NOTE_B);
    OrderIrrelevantIffClearWinner(votes, [NOTE_A, NOTE_B]);
    MirroredPeersAgree(NOTE_A, NOTE_B, 0, 0);
  }

  /** Two peers that hold one version each, and see the same votes, keep the same one
      exactly when votes or timestamps tell the two apart. */
  lemma MirroredPeersAgree(a: Json, b: Json, votesA: nat, votesB: nat)
    requires a != b
    ensures Resolution(NewConflict(a, b), votesA, votesB).entry == Resolution(NewConflict(b, a), votesB, votesA).entry
       <==> votesA != votesB || Timestamp(a) != Timestamp(b)
  {
    StrLessTotal(Timestamp(a), Timestamp(b));
  }
}
