/**
 The process manager object (processmanager/processinfo.go): synchronising the mappings of a
 process, retiring a process, and the table entries and size counter kept along.
 Updates of the eBPF table are taken to succeed.
 */
module ProcessManager {
  import opened Words
  import opened Lpm
  import opened ProcessTable

  /** What iterating over /proc/PID/maps gave. */
  datatype Maps = Listed(raws: seq<RawMapping>) | PermissionDenied | NoMappings | Gone

  function ToSet(ms: seq<Mapping>): set<Mapping> {
    set m | m in ms
  }

  predicate Needed(raw: RawMapping) {
    raw.executable && !raw.anonymous
  }

  /** The kernel lists nonempty, non-overlapping address ranges. */
  ghost predicate GoodMaps(raws: seq<RawMapping>) {
    && (forall i :: 0 <= i < |raws| && Needed(raws[i]) ==> GoodRange(raws[i].vaddr, raws[i].length))
    && (forall i, j :: 0 <= i < j < |raws| && Needed(raws[i]) && Needed(raws[j]) ==>
          raws[i].vaddr + raws[i].length <= raws[j].vaddr || raws[j].vaddr + raws[j].length <= raws[i].vaddr)
  }

  predicate Unchanged(m: Mapping, raw: RawMapping) {
    m.vaddr == raw.vaddr && m.length == raw.length && m.device == raw.device && m.inode == raw.inode
  }

  function Opened(raw: RawMapping): Mapping
    requires raw.elf.Elf?
  {
    Mapping(raw.vaddr, raw.length, raw.device, raw.inode, raw.elf.fileID, raw.elf.start)
  }

  /** The published mappings: known ones are kept as they are, new ones come from the ELF file. */
  ghost predicate IsSynced(before: set<Mapping>, raws: seq<RawMapping>, after: set<Mapping>) {
    forall m :: m in after <==> exists i :: 0 <= i < |raws| && Contributes(before, raws[i], m)
  }

  ghost predicate Contributes(before: set<Mapping>, raw: RawMapping, m: Mapping) {
    && Needed(raw) && Unchanged(m, raw)
    && (m in before || ((forall n :: n in before ==> !Unchanged(n, raw)) && raw.elf.Elf? && m == Opened(raw)))
  }

  /** Publishing what was found keeps ranges good and apart. */
  lemma SyncedSeparate(before: set<Mapping>, raws: seq<RawMapping>, after: set<Mapping>)
    requires Separate(before) && GoodMaps(raws) && IsSynced(before, raws, after)
    ensures Separate(after)
  {
    forall m | m in after ensures Good(m) {
      var i :| 0 <= i < |raws| && Contributes(before, raws[i], m);
    }
    forall m, n | m in after && n in after && m != n ensures Disjoint(m, n) {
      var i :| 0 <= i < |raws| && Contributes(before, raws[i], m);
      var j :| 0 <= j < |raws| && Contributes(before, raws[j], n);
      if i == j {
        SameRaw(before, raws[i], m, n);
      }
    }
  }

  lemma SameRaw(before: set<Mapping>, raw: RawMapping, m: Mapping, n: Mapping)
    requires Separate(before) && Contributes(before, raw, m) && Contributes(before, raw, n)
    ensures m == n
  {
    assert m in before ==> Good(m);
  }

  lemma InstalledElsewhere(table: map<Key, Info>, table': map<Key, Info>, pid: Pid, other: Pid, layout: Layout)
    requires SameElsewhere(table, table', pid) && other != pid && Installed(table, other, layout)
    ensures Installed(table', other, layout)
  {
    forall p ensures SameAt(table, table', Key(other, p)) {
    }
  }

  ghost predicate SameAt(table: map<Key, Info>, table': map<Key, Info>, k: Key) {
    (k in table <==> k in table') && (k in table ==> table[k] == table'[k])
  }

  /** The two tables differ at most in entries of `pid`. */
  ghost predicate SameElsewhere(table: map<Key, Info>, table': map<Key, Info>, pid: Pid) {
    forall k: Key {:trigger SameAt(table, table', k)} :: k.pid != pid ==> SameAt(table, table', k)
  }

  lemma SameThrough(table: map<Key, Info>, table': map<Key, Info>, table'': map<Key, Info>, pid: Pid)
    requires SameElsewhere(table, table', pid) && SameElsewhere(table', table'', pid)
    ensures SameElsewhere(table, table'', pid)
  {
    forall k: Key | k.pid != pid ensures SameAt(table, table'', k) {
      assert SameAt(table, table', k) && SameAt(table', table'', k);
    }
  }

  ghost predicate DistinctPrefixes(ps: seq<Prefix>) {
    forall i, j :: 0 <= i < j < |ps| ==> ps[i] != ps[j]
  }

  lemma MappingPrefixesDistinct(m: Mapping)
    requires Good(m)
    ensures DistinctPrefixes(MappingPrefixes(m))
  {
    var end := m.vaddr + m.length;
    var bs, ps := Blocks(m.vaddr, end), MappingPrefixes(m);
    BlockExps(m.vaddr, end);
    BlocksTile(m.vaddr, end);
    forall i, j | 0 <= i < j < |ps| ensures ps[i] != ps[j] {
      TilesPartition(bs, m.vaddr, end, bs[i].key);
      assert Contains(bs[i], bs[i].key);
      assert ps[i] == PrefixOf(bs[i]) && ps[j] == PrefixOf(bs[j]);
    }
  }

  function Removed(table: map<Key, Info>, pid: Pid, ps: seq<Prefix>): map<Key, Info> {
    if ps == [] then table
    else Removed(table, pid, ps[..|ps| - 1]) - {Key(pid, ps[|ps| - 1])}
  }

  function Inserted(table: map<Key, Info>, pid: Pid, ps: seq<Prefix>, info: Info): map<Key, Info> {
    if ps == [] then table
    else Inserted(table, pid, ps[..|ps| - 1], info)[Key(pid, ps[|ps| - 1]) := info]
  }

  lemma {:induction false} RemovedKeys(table: map<Key, Info>, pid: Pid, ps: seq<Prefix>, all: set<Prefix>)
    requires forall p :: p in all <==> p in ps
    ensures Removed(table, pid, ps) == table - KeysOf(pid, all)
  {
    if ps != [] {
      var rest, last := ps[..|ps| - 1], ps[|ps| - 1];
      assert ps == rest + [last];
      var fewer := set p | p in rest;
      RemovedKeys(table, pid, rest, fewer);
      assert KeysOf(pid, all) == KeysOf(pid, fewer) + {Key(pid, last)};
    }
  }

  lemma {:induction false} InsertedKeys(table: map<Key, Info>, pid: Pid, ps: seq<Prefix>, all: set<Prefix>, info: Info)
    requires forall p :: p in all <==> p in ps
    ensures Inserted(table, pid, ps, info) == table + Entries(pid, all, info)
  {
    if ps != [] {
      var rest, last := ps[..|ps| - 1], ps[|ps| - 1];
      assert ps == rest + [last];
      var fewer := set p | p in rest;
      InsertedKeys(table, pid, rest, fewer, info);
      assert KeysOf(pid, all) == KeysOf(pid, fewer) + {Key(pid, last)};
    }
  }

  /** Deleting one present entry, or adding one absent entry, changes the size by one. */
  lemma SizeOfUpdate(table: map<Key, Info>, k: Key, info: Info)
    ensures k in table ==> |table - {k}| == |table| - 1
    ensures k !in table ==> |table[k := info]| == |table| + 1 && table - {k} == table
  {
    if k in table {
      assert table.Keys == (table - {k}).Keys + {k};
    } else {
      assert table[k := info].Keys == table.Keys + {k};
    }
  }

  lemma {:induction false} InsertedAbsent(table: map<Key, Info>, pid: Pid, ps: seq<Prefix>, info: Info)
    requires DistinctPrefixes(ps) && forall p :: p in ps ==> Key(pid, p) !in table
    ensures |Inserted(table, pid, ps, info)| == |table| + |ps|
    ensures forall p :: p !in ps && Key(pid, p) !in table ==> Key(pid, p) !in Inserted(table, pid, ps, info)
  {
    if ps != [] {
      var rest, last := ps[..|ps| - 1], ps[|ps| - 1];
      assert ps == rest + [last];
      InsertedAbsent(table, pid, rest, info);
      SizeOfUpdate(Inserted(table, pid, rest, info), Key(pid, last), info);
    }
  }

  predicate Distinct(ms: seq<Mapping>) {
    ms == [] || (Distinct(ms[..|ms| - 1]) && ms[|ms| - 1] !in ms[..|ms| - 1])
  }

  lemma {:induction false} DistinctAt(ms: seq<Mapping>, i: nat, j: nat)
    requires Distinct(ms) && i < j < |ms|
    ensures ms[i] != ms[j]
  {
    var last := |ms| - 1;
    if j < last {
      DistinctAt(ms[..last], i, j);
    } else {
      assert ms[i] == ms[..last][i];
    }
  }

  // ------------------------------------------------------------------ comparing old and new mappings

  /** Some listed mapping is `m` unchanged. */
  ghost predicate Matched(raws: seq<RawMapping>, m: Mapping) {
    exists i :: 0 <= i < |raws| && Needed(raws[i]) && Unchanged(m, raws[i])
  }

  lemma MatchedStep(raws: seq<RawMapping>, i: nat, m: Mapping)
    requires i < |raws|
    ensures Matched(raws[..i + 1], m) <==> Matched(raws[..i], m) || (Needed(raws[i]) && Unchanged(m, raws[i]))
  {
    var shorter, longer := raws[..i], raws[..i + 1];
    assert forall k :: 0 <= k < i ==> shorter[k] == longer[k];
    if Matched(shorter, m) {
      var k :| 0 <= k < |shorter| && Needed(shorter[k]) && Unchanged(m, shorter[k]);
      assert longer[k] == shorter[k];
    }
    assert longer[i] == raws[i];
  }

  /** A listed mapping is not the unchanged form of anything matched before it. */
  lemma MatchedOnce(raws: seq<RawMapping>, i: nat, m: Mapping)
    requires i < |raws| && GoodMaps(raws) && Needed(raws[i]) && m.vaddr == raws[i].vaddr
    ensures !Matched(raws[..i], m)
  {
    if k :| 0 <= k < i && Needed(raws[k]) && Unchanged(m, raws[k]) {
      assert GoodRange(raws[k].vaddr, raws[k].length) && GoodRange(raws[i].vaddr, raws[i].length);
    }
  }

  lemma SyncedSome(before: set<Mapping>, raws: seq<RawMapping>, i: nat, s: set<Mapping>, m: Mapping)
    requires i < |raws| && Separate(before) && IsSynced(before, raws[..i], s) && Contributes(before, raws[i], m)
    ensures IsSynced(before, raws[..i + 1], s + {m})
  {
    var shorter, longer := raws[..i], raws[..i + 1];
    forall n ensures n in s + {m} <==> exists k :: 0 <= k < |longer| && Contributes(before, longer[k], n) {
      if n in s {
        var k :| 0 <= k < |shorter| && Contributes(before, shorter[k], n);
        assert longer[k] == shorter[k];
      }
      if n == m {
        assert longer[i] == raws[i];
      }
      if k :| 0 <= k < |longer| && Contributes(before, longer[k], n) {
        if k < i {
          assert shorter[k] == longer[k];
        } else {
          SameRaw(before, raws[i], m, n);
        }
      }
    }
  }

  lemma SyncedNone(before: set<Mapping>, raws: seq<RawMapping>, i: nat, s: set<Mapping>)
    requires i < |raws| && IsSynced(before, raws[..i], s) && forall m :: !Contributes(before, raws[i], m)
    ensures IsSynced(before, raws[..i + 1], s)
  {
    var shorter, longer := raws[..i], raws[..i + 1];
    forall n ensures n in s <==> exists k :: 0 <= k < |longer| && Contributes(before, longer[k], n) {
      if n in s {
        var k :| 0 <= k < |shorter| && Contributes(before, shorter[k], n);
        assert longer[k] == shorter[k];
      }
      if k :| 0 <= k < |longer| && Contributes(before, longer[k], n) {
        assert k < i && shorter[k] == longer[k];
      }
    }
  }

  /** What a new mapping contributes was not published by an earlier line. */
  lemma FreshContribution(before: set<Mapping>, raws: seq<RawMapping>, i: nat, s: set<Mapping>, m: Mapping)
    requires i < |raws| && GoodMaps(raws) && IsSynced(before, raws[..i], s) && Contributes(before, raws[i], m)
    ensures m !in s
  {
    MatchedOnce(raws, i, m);
  }

  /** The pending removals are the old mappings no line has matched yet, keyed by address. */
  ghost predicate Pending(pending: map<Word, Mapping>, before: set<Mapping>, raws: seq<RawMapping>) {
    && (forall v :: v in pending ==> pending[v] in before && pending[v].vaddr == v)
    && (forall m :: m in before ==> ((m.vaddr in pending && pending[m.vaddr] == m) <==> !Matched(raws, m)))
  }

  lemma PendingKeeps(pending: map<Word, Mapping>, before: set<Mapping>, raws: seq<RawMapping>, i: nat)
    requires i < |raws| && Pending(pending, before, raws[..i])
    requires forall m :: m in before ==> !(Needed(raws[i]) && Unchanged(m, raws[i]))
    ensures Pending(pending, before, raws[..i + 1])
  {
    forall m | m in before ensures Matched(raws[..i + 1], m) <==> Matched(raws[..i], m) {
      MatchedStep(raws, i, m);
    }
  }

  lemma PendingDrops(pending: map<Word, Mapping>, before: set<Mapping>, raws: seq<RawMapping>, i: nat)
    requires i < |raws| && Pending(pending, before, raws[..i]) && Separate(before) && Needed(raws[i])
    requires raws[i].vaddr in pending && Unchanged(pending[raws[i].vaddr], raws[i])
    ensures Pending(pending - {raws[i].vaddr}, before, raws[..i + 1])
  {
    var v := raws[i].vaddr;
    var pending' := pending - {v};
    forall m | m in before
      ensures (m.vaddr in pending' && pending'[m.vaddr] == m) <==> !Matched(raws[..i + 1], m)
    {
      MatchedStep(raws, i, m);
      if m.vaddr == v && m != pending[v] {
        assert Disjoint(m, pending[v]) && Good(m) && Good(pending[v]);
      }
    }
  }

  /** With the address taken or changed, no old mapping is unchanged by this line. */
  lemma NoneUnchanged(pending: map<Word, Mapping>, before: set<Mapping>, raws: seq<RawMapping>, i: nat, m: Mapping)
    requires i < |raws| && GoodMaps(raws) && Pending(pending, before, raws[..i]) && Needed(raws[i])
    requires !(raws[i].vaddr in pending && Unchanged(pending[raws[i].vaddr], raws[i]))
    requires m in before
    ensures !Unchanged(m, raws[i])
  {
    if m.vaddr == raws[i].vaddr {
      MatchedOnce(raws, i, m);
    }
  }

  /** The pass over /proc/PID/maps: new list, mappings to add, mappings to remove. */
  method Compare(olds: seq<Mapping>, raws: seq<RawMapping>)
    returns (mappings: seq<Mapping>, toAdd: seq<Mapping>, toRemove: map<Word, Mapping>)
    requires Separate(ToSet(olds)) && GoodMaps(raws)
    ensures IsSynced(ToSet(olds), raws, ToSet(mappings)) && Distinct(mappings)
    ensures Distinct(toAdd) && forall m :: m in toAdd <==> m in mappings && m !in olds
    ensures Pending(toRemove, ToSet(olds), raws)
  {
    ghost var before := ToSet(olds);
    toRemove := map[];
    for i := 0 to |olds|
      invariant forall v :: v in toRemove ==> toRemove[v] in before && toRemove[v].vaddr == v
      invariant forall k :: 0 <= k < i ==> olds[k].vaddr in toRemove && toRemove[olds[k].vaddr] == olds[k]
    {
      SameAddress(before, olds[i]);
      toRemove := toRemove[olds[i].vaddr := olds[i]];
    }
    mappings, toAdd := [], [];
    assert raws[..0] == [] && IsSynced(before, raws[..0], ToSet([]));
    for i := 0 to |raws|
      invariant Pending(toRemove, before, raws[..i])
      invariant IsSynced(before, raws[..i], ToSet(mappings)) && Distinct(mappings)
      invariant Distinct(toAdd) && forall m :: m in toAdd <==> m in mappings && m !in before
    {
      var raw := raws[i];
      if !Needed(raw) {
        PendingKeeps(toRemove, before, raws, i);
        SyncedNone(before, raws, i, ToSet(mappings));
        continue;
      }
      if raw.vaddr in toRemove && Unchanged(toRemove[raw.vaddr], raw) {
        var m := toRemove[raw.vaddr];
        PendingDrops(toRemove, before, raws, i);
        SyncedSome(before, raws, i, ToSet(mappings), m);
        FreshContribution(before, raws, i, ToSet(mappings), m);
        toRemove := toRemove - {raw.vaddr};
        Appended(mappings, m);
        mappings := mappings + [m];
      } else {
        forall m | m in before ensures !Unchanged(m, raw) {
          NoneUnchanged(toRemove, before, raws, i, m);
        }
        PendingKeeps(toRemove, before, raws, i);
        if raw.elf.NotElf? {
          SyncedNone(before, raws, i, ToSet(mappings));
        } else {
          var m := Opened(raw);
          SyncedSome(before, raws, i, ToSet(mappings), m);
          FreshContribution(before, raws, i, ToSet(mappings), m);
          Appended(mappings, m);
          Appended(toAdd, m);
          mappings := mappings + [m];
          toAdd := toAdd + [m];
        }
      }
    }
    assert raws[..|raws|] == raws;
  }

  /** The new mappings are the kept ones and the added ones. */
  lemma SyncedParts(before: set<Mapping>, raws: seq<RawMapping>, after: set<Mapping>, toRemove: map<Word, Mapping>, toAdd: set<Mapping>)
    requires Separate(before) && IsSynced(before, raws, after) && Pending(toRemove, before, raws)
    requires toAdd == after - before
    ensures after == (before - toRemove.Values) + toAdd
    ensures toAdd !! (before - toRemove.Values)
  {
    forall m | m in before ensures m in after <==> m !in toRemove.Values {
      if Matched(raws, m) {
        var i :| 0 <= i < |raws| && Needed(raws[i]) && Unchanged(m, raws[i]);
        assert Contributes(before, raws[i], m);
      }
      if m in toRemove.Values {
        var v :| v in toRemove && toRemove[v] == m;
      }
    }
  }

  lemma LeftWithout(goal: Layout, left: Layout, pending: map<Word, Mapping>, v: Word)
    requires v in pending && goal == left - pending.Values
    requires forall w :: w in pending ==> pending[w] in left && pending[w].vaddr == w
    ensures goal == (left - {pending[v]}) - (pending - {v}).Values
    ensures var rest := pending - {v}; forall w :: w in rest ==> rest[w] in left - {pending[v]} && rest[w].vaddr == w
    ensures |pending - {v}| < |pending|
  {
    ValuesWithout(pending, v);
    assert |(pending - {v}).Keys| < |pending.Keys| by {
      assert (pending - {v}).Keys == pending.Keys - {v};
    }
  }

  lemma ValuesWithout(pending: map<Word, Mapping>, v: Word)
    requires v in pending && forall w :: w in pending ==> pending[w].vaddr == w
    ensures (pending - {v}).Values == pending.Values - {pending[v]}
  {
    var rest := pending - {v};
    forall m ensures m in rest.Values <==> m in pending.Values - {pending[v]} {
      if m in pending.Values && m != pending[v] {
        var w :| w in pending && pending[w] == m;
        assert w in rest && rest[w] == m;
      }
      if m in rest.Values {
        var w :| w in rest && rest[w] == m;
        assert pending[w] == m && m.vaddr == w;
      }
    }
  }

  lemma NextAdded(toAdd: seq<Mapping>, i: nat)
    requires i < |toAdd| && Distinct(toAdd)
    ensures toAdd[i] !in ToSet(toAdd[..i]) && toAdd[i] in ToSet(toAdd)
    ensures ToSet(toAdd[..i + 1]) == ToSet(toAdd[..i]) + {toAdd[i]}
  {
    assert toAdd[..i + 1] == toAdd[..i] + [toAdd[i]];
    if toAdd[i] in toAdd[..i] {
      var j :| 0 <= j < i && toAdd[..i][j] == toAdd[i];
      DistinctAt(toAdd, j, i);
    }
  }

  /** Laying out the next mapping on the way from `shown` to `all`. */
  lemma LayNext(cur: Layout, shown: Layout, all: Layout, toAdd: seq<Mapping>, i: nat)
    requires i < |toAdd| && Distinct(toAdd) && ToSet(toAdd) !! shown.Keys
    requires AllLaid(all) && ToSet(toAdd) <= all.Keys
    requires Part(cur, all) && cur.Keys == shown.Keys + ToSet(toAdd[..i])
    ensures var m := toAdd[i];
            && m in all && m !in cur && Laid(map[m := all[m]], m)
            && Part(cur[m := all[m]], all) && Unshared(cur[m := all[m]])
            && cur[m := all[m]].Keys == shown.Keys + ToSet(toAdd[..i + 1])
  {
    var m := toAdd[i];
    NextAdded(toAdd, i);
    assert Laid(all, m);
    PartUnshared(cur[m := all[m]], all);
  }

  lemma SameAddress(before: set<Mapping>, m: Mapping)
    requires Separate(before) && m in before
    ensures forall n :: n in before && n.vaddr == m.vaddr ==> n == m
  {
    forall n | n in before && n.vaddr == m.vaddr ensures n == m {
      assert Good(n) && Good(m);
    }
  }

  lemma Appended(ms: seq<Mapping>, m: Mapping)
    requires Distinct(ms) && m !in ms
    ensures Distinct(ms + [m]) && ToSet(ms + [m]) == ToSet(ms) + {m}
  {
    assert (ms + [m])[..|ms|] == ms;
  }

  function Entries(pid: Pid, ps: set<Prefix>, info: Info): map<Key, Info> {
    map k | k in KeysOf(pid, ps) :: info
  }

  /** The layout holds the mapping with the prefixes the decomposition gives. */
  ghost predicate Laid(layout: Layout, m: Mapping) {
    m in layout && Good(m) && layout[m] == PrefixSet(m)
  }

  ghost predicate AllLaid(layout: Layout) {
    Unshared(layout) && forall m {:trigger Laid(layout, m)} :: m in layout ==> Laid(layout, m)
  }

  ghost predicate Part(layout: Layout, all: Layout) {
    forall m :: m in layout ==> m in all && layout[m] == all[m]
  }

  lemma SameLayout(layout: Layout, all: Layout)
    requires Part(layout, all) && layout.Keys == all.Keys
    ensures layout == all
  {
  }

  lemma PartUnshared(layout: Layout, all: Layout)
    requires Part(layout, all) && Unshared(all)
    ensures Unshared(layout)
  {
    forall m, n | m != n ensures Apart(layout, m, n) {
      assert Apart(all, m, n);
    }
  }

  lemma LaidWithout(layout: Layout, m: Mapping)
    requires AllLaid(layout)
    ensures AllLaid(layout - {m})
  {
    forall n | n in layout - {m} ensures Laid(layout - {m}, n) {
      assert Laid(layout, n);
    }
    PartUnshared(layout - {m}, layout);
  }

  lemma SeparateLaid(ms: set<Mapping>)
    requires Separate(ms)
    ensures AllLaid(LayoutOf(ms))
  {
    SeparateUnshared(ms);
  }

  /** Nothing outside the process changed, and its marker is as before. */
  ghost predicate OnlyMappingsChanged(table: map<Key, Info>, table': map<Key, Info>, pid: Pid) {
    SameElsewhere(table, table', pid) && SameAt(table, table', Key(pid, DUMMY))
  }

  lemma RemovedEntries(table: map<Key, Info>, pid: Pid, layout: Layout, m: Mapping)
    requires Installed(table, pid, layout) && Unshared(layout) && Laid(layout, m)
    ensures var table' := table - KeysOf(pid, PrefixSet(m));
            Installed(table', pid, layout - {m}) && OnlyMappingsChanged(table, table', pid)
  {
    InstalledRemove(table, pid, layout, m, table - KeysOf(pid, PrefixSet(m)));
  }

  lemma AddedEntries(table: map<Key, Info>, pid: Pid, layout: Layout, m: Mapping, ps: set<Prefix>)
    requires Installed(table, pid, layout) && m !in layout && Unshared(layout[m := ps])
    ensures KeysOf(pid, ps) !! table.Keys
    ensures var table' := table + Entries(pid, ps, InfoOf(m));
            Installed(table', pid, layout[m := ps]) && OnlyMappingsChanged(table, table', pid)
  {
    var table' := table + Entries(pid, ps, InfoOf(m));
    InstalledAdd(table, pid, layout, m, ps, table');
    assert DUMMY !in layout[m := ps][m];
  }

  lemma Tail(ms: seq<Mapping>, i: nat)
    requires Distinct(ms) && i < |ms|
    ensures ms[i] in ToSet(ms[i..]) && ToSet(ms[i + 1..]) == ToSet(ms[i..]) - {ms[i]}
  {
    assert ms[i..] == [ms[i]] + ms[i + 1..];
    if ms[i] in ms[i + 1..] {
      var j :| 0 <= j < |ms[i + 1..]| && ms[i + 1..][j] == ms[i];
      DistinctAt(ms, i, i + 1 + j);
    }
  }

  // ------------------------------------------------------------------ the invariant

  /** The set of mappings the table must show for a process. */
  ghost function Shown(infos: map<Pid, seq<Mapping>>, exits: map<Pid, KTime>, pid: Pid): set<Mapping> {
    if pid in infos && pid !in exits then ToSet(infos[pid]) else {}
  }

  /** The table shows the published mappings of each live process and nothing of any other. */
  ghost predicate ConsistentFor(infos: map<Pid, seq<Mapping>>, exits: map<Pid, KTime>, table: map<Key, Info>, pid: Pid) {
    && Separate(Shown(infos, exits, pid))
    && Installed(table, pid, LayoutOf(Shown(infos, exits, pid)))
    && (Key(pid, DUMMY) in table <==> pid in infos && pid !in exits)
    && (pid in infos ==> Distinct(infos[pid]))
  }

  ghost predicate Consistent(infos: map<Pid, seq<Mapping>>, exits: map<Pid, KTime>, table: map<Key, Info>) {
    && exits.Keys <= infos.Keys
    && forall pid :: ConsistentFor(infos, exits, table, pid)
  }

  lemma ShownBy(infos: map<Pid, seq<Mapping>>, exits: map<Pid, KTime>, table: map<Key, Info>, pid: Pid) returns (layout: Layout)
    requires Consistent(infos, exits, table) && pid in infos && pid !in exits
    ensures Separate(ToSet(infos[pid])) && Distinct(infos[pid])
    ensures layout == LayoutOf(ToSet(infos[pid])) && layout.Keys == ToSet(infos[pid]) && AllLaid(layout)
    ensures Installed(table, pid, layout) && Key(pid, DUMMY) in table
  {
    assert ConsistentFor(infos, exits, table, pid);
    layout := LayoutOf(ToSet(infos[pid]));
    SeparateLaid(ToSet(infos[pid]));
  }

  /** The layout to reach, and the part of the old one that stays. */
  lemma NewLayout(before: set<Mapping>, after: set<Mapping>, removed: set<Mapping>, added: set<Mapping>, layout: Layout)
    returns (kept: Layout, all: Layout)
    requires layout == LayoutOf(before) && Separate(after)
    requires after == (before - removed) + added && added !! (before - removed)
    ensures all == LayoutOf(after) && AllLaid(all)
    ensures kept == layout - removed && Part(kept, all) && Unshared(kept)
    ensures all.Keys == kept.Keys + added && added !! kept.Keys
  {
    all := LayoutOf(after);
    SeparateLaid(after);
    kept := layout - removed;
    PartOfLayout(before, after, kept);
    PartUnshared(kept, all);
  }

  lemma PartOfLayout(before: set<Mapping>, after: set<Mapping>, kept: Layout)
    requires kept.Keys <= after && Part(kept, LayoutOf(before))
    ensures Part(kept, LayoutOf(after))
  {
  }

  /** A process whose own entries changed does not disturb another one. */
  lemma OtherUntouched(infos: map<Pid, seq<Mapping>>, exits: map<Pid, KTime>, table: map<Key, Info>,
                       infos': map<Pid, seq<Mapping>>, exits': map<Pid, KTime>, table': map<Key, Info>, pid: Pid, other: Pid)
    requires ConsistentFor(infos, exits, table, other) && other != pid && SameElsewhere(table, table', pid)
    requires other in infos <==> other in infos'
    requires other in infos ==> infos[other] == infos'[other]
    requires other in exits <==> other in exits'
    ensures ConsistentFor(infos', exits', table', other)
  {
    var ms := Shown(infos, exits, other);
    assert Shown(infos', exits', other) == ms;
    assert SameAt(table, table', Key(other, DUMMY));
    InstalledElsewhere(table, table', pid, other, LayoutOf(ms));
  }

  lemma NothingLeft(table: map<Key, Info>, pid: Pid)
    requires Installed(table, pid, map[]) && Key(pid, DUMMY) !in table
    ensures forall p :: Key(pid, p) !in table
  {
    forall p ensures Key(pid, p) !in table {
      assert !PrefixOfSome(map[], p);
    }
  }

  /** In every consistent state a lookup agrees with the published mappings. */
  lemma TableAgrees(infos: map<Pid, seq<Mapping>>, exits: map<Pid, KTime>, table: map<Key, Info>, pid: Pid, a: Word, r: Hit)
    requires Consistent(infos, exits, table) && a != 0 && IsLookup(table, pid, a, r)
    ensures pid in infos && pid !in exits ==> IsMappingAt(ToSet(infos[pid]), a, r)
    ensures pid !in infos || pid in exits ==> r == Miss
  {
    assert ConsistentFor(infos, exits, table, pid);
    LookupAgrees(table, pid, Shown(infos, exits, pid), a, r);
  }

  lemma MarkerThere(infos: map<Pid, seq<Mapping>>, exits: map<Pid, KTime>, table: map<Key, Info>, pid: Pid)
    requires Consistent(infos, exits, table)
    ensures Key(pid, DUMMY) in table <==> pid in infos && pid !in exits
  {
    assert ConsistentFor(infos, exits, table, pid);
  }

  /** A line that is executable and has a file shows what is mapped at the address. */
  ghost predicate ShowsLine(raw: RawMapping, a: Word) {
    raw.executable && !raw.anonymous && raw.vaddr <= a < raw.vaddr + raw.length
  }

  /** A mapping known before under the same address, length, device and inode. */
  ghost predicate KnownAs(m: Mapping, raw: RawMapping) {
    m.vaddr == raw.vaddr && m.length == raw.length && m.device == raw.device && m.inode == raw.inode
  }

  /** The entry translates as the mapping known before, or as what opening the file gave. */
  ghost predicate Resolves(before: set<Mapping>, raw: RawMapping, a: Word, info: Info) {
    || (exists m :: m in before && KnownAs(m, raw) && Translates(info, m, a))
    || (&& (forall m :: m in before ==> !KnownAs(m, raw)) && raw.elf.Elf?
        && info.fileID == raw.elf.fileID && Minus(a, info.bias) == Wrap(raw.elf.start + (a - raw.vaddr)))
  }

  /**
   After a synchronisation with these lines a lookup of a nonzero address finds the file and the
   address in it that the line holding the address stands for; it finds nothing exactly if no such
   line has a file that is known or an ELF file.
   */
  lemma SyncedLookup(before: set<Mapping>, raws: seq<RawMapping>, infos: map<Pid, seq<Mapping>>, exits: map<Pid, KTime>,
                     table: map<Key, Info>, pid: Pid, a: Word, r: Hit)
    requires Consistent(infos, exits, table) && pid in infos && pid !in exits
    requires IsSynced(before, raws, ToSet(infos[pid])) && a != 0 && IsLookup(table, pid, a, r)
    ensures r.Hit? ==> exists i :: 0 <= i < |raws| && ShowsLine(raws[i], a) && Resolves(before, raws[i], a, r.info)
    ensures r.Miss? ==> forall i :: 0 <= i < |raws| && ShowsLine(raws[i], a) ==>
                          raws[i].elf.NotElf? && forall m :: m in before ==> !KnownAs(m, raws[i])
  {
    TableAgrees(infos, exits, table, pid, a, r);
    var after := ToSet(infos[pid]);
    if r.Hit? {
      var m :| m in after && Translates(r.info, m, a);
      var i :| 0 <= i < |raws| && Contributes(before, raws[i], m);
      assert ShowsLine(raws[i], a) && Resolves(before, raws[i], a, r.info);
    } else {
      forall i | 0 <= i < |raws| && ShowsLine(raws[i], a)
        ensures raws[i].elf.NotElf? && forall m :: m in before ==> !KnownAs(m, raws[i])
      {
        LineShown(before, raws, after, i, a);
      }
    }
  }

  lemma LineShown(before: set<Mapping>, raws: seq<RawMapping>, after: set<Mapping>, i: nat, a: Word)
    requires IsSynced(before, raws, after) && i < |raws| && ShowsLine(raws[i], a)
    requires forall m :: m in after ==> !(m.vaddr <= a < m.vaddr + m.length)
    ensures raws[i].elf.NotElf? && forall m :: m in before ==> !KnownAs(m, raws[i])
  {
    forall m | m in before ensures !KnownAs(m, raws[i]) {
      if KnownAs(m, raws[i]) {
        assert Contributes(before, raws[i], m);
      }
    }
    if raws[i].elf.Elf? {
      assert Contributes(before, raws[i], Opened(raws[i]));
    }
  }

  /** Nothing is left in the table of a process that is exiting or unknown. */
  lemma NoEntries(infos: map<Pid, seq<Mapping>>, exits: map<Pid, KTime>, table: map<Key, Info>, pid: Pid, p: Prefix)
    requires Consistent(infos, exits, table) && (pid !in infos || pid in exits)
    ensures Key(pid, p) !in table
  {
    assert ConsistentFor(infos, exits, table, pid);
    assert Shown(infos, exits, pid) == {};
    assert !PrefixOfSome(LayoutOf({}), p);
  }

  lemma NewProcess(infos: map<Pid, seq<Mapping>>, exits: map<Pid, KTime>, table: map<Key, Info>, pid: Pid)
    requires Consistent(infos, exits, table) && pid !in infos
    ensures Consistent(infos[pid := []], exits, table[Key(pid, DUMMY) := Info(0, 0)])
    ensures Key(pid, DUMMY) !in table
  {
    var infos', table' := infos[pid := []], table[Key(pid, DUMMY) := Info(0, 0)];
    assert ConsistentFor(infos, exits, table, pid);
    assert Shown(infos, exits, pid) == {} && Shown(infos', exits, pid) == {};
    forall other ensures ConsistentFor(infos', exits, table', other) {
      if other != pid {
        assert ConsistentFor(infos, exits, table, other);
        OtherUntouched(infos, exits, table, infos', exits, table', pid, other);
      } else {
        MarkerAdded(table, pid, LayoutOf({}), Info(0, 0));
      }
    }
  }

  lemma MarkerAdded(table: map<Key, Info>, pid: Pid, layout: Layout, info: Info)
    requires Installed(table, pid, layout) && Unshared(layout)
    ensures Installed(table[Key(pid, DUMMY) := info], pid, layout)
  {
  }

  lemma Exited(infos: map<Pid, seq<Mapping>>, exits: map<Pid, KTime>, table: map<Key, Info>, pid: Pid, t: KTime, table': map<Key, Info>)
    requires Consistent(infos, exits, table) && pid in infos && pid !in exits
    requires SameElsewhere(table, table', pid) && forall p :: Key(pid, p) !in table'
    ensures Consistent(infos, exits[pid := t], table')
  {
    var exits' := exits[pid := t];
    assert ConsistentFor(infos, exits, table, pid);
    forall other ensures ConsistentFor(infos, exits', table', other) {
      if other != pid {
        assert ConsistentFor(infos, exits, table, other);
        OtherUntouched(infos, exits, table, infos, exits', table', pid, other);
      } else {
        assert Shown(infos, exits', pid) == {};
      }
    }
  }

  lemma Forgotten(infos: map<Pid, seq<Mapping>>, exits: map<Pid, KTime>, table: map<Key, Info>, pid: Pid)
    requires Consistent(infos, exits, table) && pid in exits
    ensures Consistent(infos - {pid}, exits - {pid}, table)
  {
    forall other ensures ConsistentFor(infos - {pid}, exits - {pid}, table, other) {
      assert ConsistentFor(infos, exits, table, other);
      assert Shown(infos - {pid}, exits - {pid}, other) == Shown(infos, exits, other);
    }
  }

  lemma Published(infos: map<Pid, seq<Mapping>>, exits: map<Pid, KTime>, table: map<Key, Info>, pid: Pid, ms: seq<Mapping>, table': map<Key, Info>)
    requires Consistent(infos, exits, table) && pid in infos && pid !in exits
    requires Separate(ToSet(ms)) && Distinct(ms) && Installed(table', pid, LayoutOf(ToSet(ms)))
    requires Key(pid, DUMMY) in table' && SameElsewhere(table, table', pid)
    ensures Consistent(infos[pid := ms], exits, table')
  {
    var infos' := infos[pid := ms];
    forall other ensures ConsistentFor(infos', exits, table', other) {
      if other != pid {
        assert ConsistentFor(infos, exits, table, other);
        OtherUntouched(infos, exits, table, infos', exits, table', pid, other);
      } else {
        assert Shown(infos', exits, pid) == ToSet(ms);
      }
    }
  }

  class ProcessManager {
    var infos: map<Pid, seq<Mapping>>
    var exitEvents: map<Pid, KTime>
    var table: map<Key, Info>
    var tableSize: nat

    ghost predicate Valid()
      reads this
    {
      Consistent(infos, exitEvents, table) && tableSize == |table|
    }

    constructor ()
      ensures Valid() && infos == map[] && exitEvents == map[] && table == map[]
    {
      infos, exitEvents, table, tableSize := map[], map[], map[], 0;
    }

    // ---------------------------------------------------------------- the eBPF table

    method UpdatePidPageMappingInfo(pid: Pid, prefix: Prefix, fileID: Word, bias: Word)
      modifies this`table
      ensures table == old(table)[Key(pid, prefix) := Info(fileID, bias)]
    {
      table := table[Key(pid, prefix) := Info(fileID, bias)];
    }

    /** Deletes the entries that exist and counts them. */
    method DeletePidPageMappingInfo(pid: Pid, prefixes: seq<Prefix>) returns (deleted: nat)
      modifies this`table
      ensures table == old(table) - KeysOf(pid, set p | p in prefixes)
      ensures deleted == |old(table)| - |table|
    {
      deleted := 0;
      for i := 0 to |prefixes|
        invariant table == Removed(old(table), pid, prefixes[..i])
        invariant deleted == |old(table)| - |table|
      {
        var key := Key(pid, prefixes[i]);
        assert prefixes[..i + 1][..i] == prefixes[..i];
        SizeOfUpdate(table, key, Info(0, 0));
        if key in table {
          table := table - {key};
          deleted := deleted + 1;
        }
      }
      assert prefixes[..|prefixes|] == prefixes;
      RemovedKeys(old(table), pid, prefixes, set p | p in prefixes);
    }

    method ProcessNewMapping(pid: Pid, m: Mapping) returns (added: nat)
      requires Good(m) && KeysOf(pid, PrefixSet(m)) !! table.Keys
      modifies this`table
      ensures table == old(table) + Entries(pid, PrefixSet(m), InfoOf(m))
      ensures added == |table| - |old(table)|
    {
      var r := CalculatePrefixList(m.vaddr, m.vaddr + m.length);
      assert r.list == MappingPrefixes(m);
      MappingPrefixesDistinct(m);
      forall p | p in r.list ensures Key(pid, p) !in table {
        assert Key(pid, p) in KeysOf(pid, PrefixSet(m));
      }
      added := InstallPrefixes(pid, r.list, m.fileID, Minus(m.vaddr, m.start));
      InsertedAbsent(old(table), pid, r.list, InfoOf(m));
      InsertedKeys(old(table), pid, r.list, PrefixSet(m), InfoOf(m));
    }

    method InstallPrefixes(pid: Pid, prefixes: seq<Prefix>, fileID: Word, bias: Word) returns (added: nat)
      modifies this`table
      ensures table == Inserted(old(table), pid, prefixes, Info(fileID, bias)) && added == |prefixes|
    {
      added := 0;
      for i := 0 to |prefixes|
        invariant table == Inserted(old(table), pid, prefixes[..i], Info(fileID, bias)) && added == i
      {
        assert prefixes[..i + 1][..i] == prefixes[..i];
        UpdatePidPageMappingInfo(pid, prefixes[i], fileID, bias);
        added := added + 1;
      }
      assert prefixes[..|prefixes|] == prefixes;
    }

    method ProcessRemovedMapping(pid: Pid, m: Mapping) returns (deleted: nat)
      requires Good(m)
      modifies this`table
      ensures table == old(table) - KeysOf(pid, PrefixSet(m))
      ensures deleted == |old(table)| - |table|
    {
      var r := CalculatePrefixList(m.vaddr, m.vaddr + m.length);
      assert r.list == MappingPrefixes(m);
      deleted := DeletePidPageMappingInfo(pid, r.list);
    }

    /** `ProcessRemovedMapping` on the table of a process that shows `layout`. */
    method Unmap(pid: Pid, m: Mapping, ghost layout: Layout) returns (deleted: nat)
      requires Unshared(layout) && Laid(layout, m) && Installed(table, pid, layout)
      modifies this`table
      ensures Installed(table, pid, layout - {m})
      ensures OnlyMappingsChanged(old(table), table, pid)
      ensures deleted == |old(table)| - |table|
    {
      RemovedEntries(table, pid, layout, m);
      deleted := ProcessRemovedMapping(pid, m);
    }

    /** `ProcessNewMapping` on the table of a process that shows `layout`. */
    method Map(pid: Pid, m: Mapping, ghost layout: Layout, ghost ps: set<Prefix>) returns (added: nat)
      requires Unshared(layout[m := ps]) && m !in layout && Laid(map[m := ps], m)
      requires Installed(table, pid, layout)
      modifies this`table
      ensures Installed(table, pid, layout[m := ps])
      ensures OnlyMappingsChanged(old(table), table, pid)
      ensures added == |table| - |old(table)|
    {
      AddedEntries(table, pid, layout, m, ps);
      added := ProcessNewMapping(pid, m);
    }

    /** Gets or creates the information about a process; a new one gets the marker entry. */
    method GetPidInformation(pid: Pid)
      requires Valid()
      modifies this
      ensures Valid() && exitEvents == old(exitEvents)
      ensures table == if pid in old(infos) then old(table) else old(table)[Key(pid, DUMMY) := Info(0, 0)]
      ensures infos == if pid in old(infos) then old(infos) else old(infos)[pid := []]
      ensures SameElsewhere(old(table), table, pid)
    {
      if pid in infos {
        return;
      }
      NewProcess(infos, exitEvents, table, pid);
      SizeOfUpdate(table, Key(pid, DUMMY), Info(0, 0));
      UpdatePidPageMappingInfo(pid, DUMMY, 0, 0);
      infos := infos[pid := []];
      tableSize := tableSize + 1;
    }

    /** Records the exit time once and drops every table entry of the process. */
    method ProcessPIDExit(pid: Pid, exitKTime: KTime)
      requires Valid()
      modifies this
      ensures Valid() && infos == old(infos)
      ensures exitEvents == if pid in old(infos) && pid !in old(exitEvents)
                            then old(exitEvents)[pid := exitKTime] else old(exitEvents)
      ensures SameElsewhere(old(table), table, pid)
    {
      if pid !in infos {
        return;
      }
      if pid in exitEvents {
        return;
      }
      ghost var layout := ShownBy(infos, exitEvents, table, pid);
      exitEvents := exitEvents[pid := exitKTime];
      var deleted := DeletePidPageMappingInfo(pid, [DUMMY]);
      DummyNotNeeded(old(table), pid, layout, table);
      ghost var before := table;
      var n := UnmapAll(pid, infos[pid], layout);
      SameThrough(old(table), before, table, pid);
      deleted := deleted + n;
      tableSize := tableSize - if tableSize < deleted then tableSize else deleted;
      NothingLeft(table, pid);
      Exited(infos, old(exitEvents), old(table), pid, exitKTime, table);
    }

    method UnmapAll(pid: Pid, ms: seq<Mapping>, ghost layout: Layout) returns (deleted: nat)
      requires Distinct(ms) && layout.Keys == ToSet(ms) && AllLaid(layout) && Installed(table, pid, layout)
      modifies this`table
      ensures Installed(table, pid, map[])
      ensures OnlyMappingsChanged(old(table), table, pid)
      ensures deleted == |old(table)| - |table|
    {
      deleted := 0;
      ghost var left := layout;
      for i := 0 to |ms|
        invariant left.Keys == ToSet(ms[i..]) && AllLaid(left) && Installed(table, pid, left)
        invariant OnlyMappingsChanged(old(table), table, pid)
        invariant deleted == |old(table)| - |table|
      {
        Tail(ms, i);
        assert Laid(left, ms[i]);
        LaidWithout(left, ms[i]);
        ghost var before := table;
        var n := Unmap(pid, ms[i], left);
        SameThrough(old(table), before, table, pid);
        deleted := deleted + n;
        left := left - {ms[i]};
      }
      assert left == map[];
    }

    /** Forgets the processes whose exit time is not after the given time; the table is already clear of them. */
    method ProcessedUntil(captured: KTime)
      requires Valid()
      modifies this`infos, this`exitEvents
      ensures Valid()
      ensures forall pid :: pid in exitEvents <==> pid in old(exitEvents) && old(exitEvents)[pid] > captured
      ensures forall pid :: pid in exitEvents ==> exitEvents[pid] == old(exitEvents)[pid]
      ensures forall pid :: pid in infos <==> pid in old(infos) && (pid in old(exitEvents) ==> pid in exitEvents)
      ensures forall pid :: pid in infos ==> infos[pid] == old(infos)[pid]
    {
      var pending := exitEvents.Keys;
      while pending != {}
        invariant pending <= exitEvents.Keys <= old(exitEvents).Keys
        invariant Valid()
        invariant forall pid :: pid in exitEvents <==> pid in old(exitEvents) && (pid in pending || old(exitEvents)[pid] > captured)
        invariant forall pid :: pid in exitEvents ==> exitEvents[pid] == old(exitEvents)[pid]
        invariant forall pid :: pid in infos <==> pid in old(infos) && (pid in old(exitEvents) ==> pid in exitEvents)
        invariant forall pid :: pid in infos ==> infos[pid] == old(infos)[pid]
        decreases |pending|
      {
        var pid :| pid in pending;
        pending := pending - {pid};
        if exitEvents[pid] <= captured {
          Forgotten(infos, exitEvents, table, pid);
          infos := infos - {pid};
          exitEvents := exitEvents - {pid};
        }
      }
    }

    method UnmapOne(pid: Pid, m: Mapping, ghost left: Layout, ghost start: map<Key, Info>) returns (n: nat)
      requires AllLaid(left) && m in left && Installed(table, pid, left) && OnlyMappingsChanged(start, table, pid)
      modifies this`table
      ensures AllLaid(left - {m}) && Installed(table, pid, left - {m}) && OnlyMappingsChanged(start, table, pid)
      ensures n == |old(table)| - |table|
    {
      assert Laid(left, m);
      n := Unmap(pid, m, left);
      SameThrough(start, old(table), table, pid);
      LaidWithout(left, m);
    }

    method UnmapRemoved(pid: Pid, toRemove: map<Word, Mapping>, ghost layout: Layout) returns (deleted: nat)
      requires AllLaid(layout) && Installed(table, pid, layout)
      requires forall v :: v in toRemove ==> toRemove[v] in layout && toRemove[v].vaddr == v
      modifies this`table
      ensures Installed(table, pid, layout - toRemove.Values)
      ensures OnlyMappingsChanged(old(table), table, pid)
      ensures deleted == |old(table)| - |table|
    {
      deleted := 0;
      var pending := toRemove;
      ghost var left := layout;
      while pending != map[]
        invariant forall v :: v in pending ==> pending[v] in left && pending[v].vaddr == v
        invariant layout - toRemove.Values == left - pending.Values
        invariant AllLaid(left) && Installed(table, pid, left)
        invariant OnlyMappingsChanged(old(table), table, pid)
        invariant deleted == |old(table)| - |table|
        decreases |pending|
      {
        var v :| v in pending;
        var n := UnmapOne(pid, pending[v], left, old(table));
        deleted := deleted + n;
        LeftWithout(layout - toRemove.Values, left, pending, v);
        left := left - {pending[v]};
        pending := pending - {v};
      }
      assert left - pending.Values == left;
    }

    method MapAdded(pid: Pid, toAdd: seq<Mapping>, ghost shown: Layout, ghost all: Layout) returns (added: nat)
      requires AllLaid(all) && Part(shown, all) && all.Keys == shown.Keys + ToSet(toAdd)
      requires ToSet(toAdd) !! shown.Keys && Distinct(toAdd)
      requires Installed(table, pid, shown)
      modifies this`table
      ensures Installed(table, pid, all)
      ensures OnlyMappingsChanged(old(table), table, pid)
      ensures added == |table| - |old(table)|
    {
      added := 0;
      ghost var cur := shown;
      for i := 0 to |toAdd|
        invariant Part(cur, all) && cur.Keys == shown.Keys + ToSet(toAdd[..i]) && Installed(table, pid, cur)
        invariant OnlyMappingsChanged(old(table), table, pid)
        invariant added == |table| - |old(table)|
      {
        var m := toAdd[i];
        LayNext(cur, shown, all, toAdd, i);
        ghost var before := table;
        var n := Map(pid, m, cur, all[m]);
        SameThrough(old(table), before, table, pid);
        added := added + n;
        cur := cur[m := all[m]];
      }
      assert toAdd[..|toAdd|] == toAdd;
      SameLayout(cur, all);
    }

    /** Rewrites the marker entry with the given flag. */
    method UpdateAnonymousMappingInterest(pid: Pid, flag: Word, ghost layout: Layout)
      requires Unshared(layout) && Installed(table, pid, layout) && Key(pid, DUMMY) in table
      modifies this`table
      ensures Installed(table, pid, layout)
      ensures SameElsewhere(old(table), table, pid) && |table| == |old(table)|
      ensures Key(pid, DUMMY) in table && table[Key(pid, DUMMY)] == Info(flag, 0)
    {
      MarkerAdded(table, pid, layout, Info(flag, 0));
      assert table[Key(pid, DUMMY) := Info(flag, 0)].Keys == table.Keys;
      UpdatePidPageMappingInfo(pid, DUMMY, flag, 0);
    }

    /** Brings a process up to date with what the kernel lists for it. */
    method SynchronizeProcess(pid: Pid, maps: Maps, now: KTime, interestChanged: bool, flag: Word)
      requires Valid()
      requires maps.Listed? ==> GoodMaps(maps.raws)
      modifies this
      ensures Valid()
      ensures SameElsewhere(old(table), table, pid)
      ensures pid in old(exitEvents) ==> infos == old(infos) && exitEvents == old(exitEvents) && table == old(table)
      ensures pid !in old(exitEvents) ==>
                && infos.Keys == old(infos).Keys + {pid}
                && (forall other :: other in old(infos) && other != pid ==> infos[other] == old(infos)[other])
                && exitEvents == (if maps.Gone? then old(exitEvents)[pid := now] else old(exitEvents))
                && var before := if pid in old(infos) then old(infos)[pid] else [];
                   if maps.Listed? then IsSynced(ToSet(before), maps.raws, ToSet(infos[pid]))
                   else infos[pid] == before
      ensures pid !in old(exitEvents) && !maps.Gone? ==>
                && Key(pid, DUMMY) in table && (pid in old(infos) ==> Key(pid, DUMMY) in old(table))
                && table[Key(pid, DUMMY)] == if maps.Listed? && interestChanged then Info(flag, 0)
                                             else if pid in old(infos) then old(table)[Key(pid, DUMMY)] else Info(0, 0)
    {
      if pid in exitEvents {
        return;
      }
      MarkerThere(infos, exitEvents, table, pid);
      GetPidInformation(pid);
      if maps.PermissionDenied? || maps.NoMappings? {
        return;
      }
      ghost var table0 := table;
      if maps.Gone? {
        ProcessPIDExit(pid, now);
      } else {
        Resynchronize(pid, maps.raws, interestChanged, flag);
      }
      SameThrough(old(table), table0, table, pid);
    }

    /** Removes, adds and publishes the mappings of a known process. */
    method Resynchronize(pid: Pid, raws: seq<RawMapping>, interestChanged: bool, flag: Word)
      requires Valid() && pid in infos && pid !in exitEvents && GoodMaps(raws)
      modifies this
      ensures Valid() && exitEvents == old(exitEvents)
      ensures SameElsewhere(old(table), table, pid)
      ensures infos.Keys == old(infos).Keys
      ensures forall other :: other in infos && other != pid ==> infos[other] == old(infos)[other]
      ensures IsSynced(ToSet(old(infos)[pid]), raws, ToSet(infos[pid]))
      ensures Key(pid, DUMMY) in table && Key(pid, DUMMY) in old(table)
      ensures table[Key(pid, DUMMY)] == if interestChanged then Info(flag, 0) else old(table)[Key(pid, DUMMY)]
    {
      ghost var before := ToSet(infos[pid]);
      ghost var layout := ShownBy(infos, exitEvents, table, pid);
      var mappings, toAdd, toRemove := Compare(infos[pid], raws);
      SyncedSeparate(before, raws, ToSet(mappings));
      SyncedParts(before, raws, ToSet(mappings), toRemove, ToSet(toAdd));
      ghost var kept, all := NewLayout(before, ToSet(mappings), toRemove.Values, ToSet(toAdd), layout);
      var numChanges := UnmapRemoved(pid, toRemove, layout);
      tableSize := tableSize - if tableSize < numChanges then tableSize else numChanges;
      ghost var table1 := table;
      if interestChanged {
        UpdateAnonymousMappingInterest(pid, flag, kept);
        SameThrough(old(table), table1, table, pid);
      }
      ghost var table2 := table;
      numChanges := MapAdded(pid, toAdd, kept, all);
      SameThrough(old(table), table2, table, pid);
      tableSize := tableSize + numChanges;
      Published(infos, exitEvents, old(table), pid, mappings, table);
      infos := infos[pid := mappings];
    }

    /** Retires every process found dead. */
    method CleanupPIDs(deadPids: seq<Pid>, exitKTime: KTime)
      requires Valid()
      modifies this
      ensures Valid() && infos == old(infos)
      ensures forall pid :: pid in exitEvents <==> pid in old(exitEvents) || (pid in deadPids && pid in infos)
      ensures forall pid :: pid in old(exitEvents) ==> exitEvents[pid] == old(exitEvents)[pid]
    {
      for i := 0 to |deadPids|
        invariant Valid() && infos == old(infos)
        invariant forall pid :: pid in exitEvents <==> pid in old(exitEvents) || (pid in deadPids[..i] && pid in infos)
        invariant forall pid :: pid in old(exitEvents) ==> exitEvents[pid] == old(exitEvents)[pid]
      {
        ProcessPIDExit(deadPids[i], exitKTime);
        assert deadPids[..i + 1] == deadPids[..i] + [deadPids[i]];
      }
      assert deadPids[..|deadPids|] == deadPids;
    }
  }

  lemma DummyNotNeeded(table: map<Key, Info>, pid: Pid, layout: Layout, table': map<Key, Info>)
    requires Installed(table, pid, layout) && Unshared(layout)
    requires table' == table - KeysOf(pid, set p | p in [DUMMY])
    ensures Installed(table', pid, layout) && SameElsewhere(table, table', pid) && Key(pid, DUMMY) !in table'
  {
    assert KeysOf(pid, set p | p in [DUMMY]) == {Key(pid, DUMMY)};
  }
}
