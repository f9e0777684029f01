/** `writePprof` of reporter/pprof.go: the stacks that were reported, as a profile. */
module PprofReport {
  import opened Words
  import opened Bytes
  import opened Flamegraph
  import Pprof
  import PprofBuilder

  /** Every key once, in some order. */
  ghost predicate Listing(order: seq<Str>, keys: set<Str>) {
    (forall k :: k in order <==> k in keys) && forall i, j :: 0 <= i < j < |order| ==> order[i] != order[j]
  }

  /** The frames of a key from the leaf, with its count; a count of zero is left out. */
  function StackOf(key: Str, count: nat): seq<Pprof.Stack> {
    if count > 0 then [Pprof.Stack(PprofBuilder.ParseAll(Split(key)), count)] else []
  }

  function StacksOf(order: seq<Str>, stacks: map<Str, nat>): seq<Pprof.Stack>
    requires forall k :: k in order ==> k in stacks
  {
    if order == [] then []
    else
      var last := order[|order| - 1];
      StacksOf(order[..|order| - 1], stacks) + StackOf(last, stacks[last])
  }

  function CountOf(ss: seq<Pprof.Stack>): nat {
    if ss == [] then 0 else CountOf(ss[..|ss| - 1]) + ss[|ss| - 1].count
  }

  lemma StacksMore(order: seq<Str>, k: Str, stacks: map<Str, nat>)
    requires k in stacks && forall j :: j in order ==> j in stacks
    ensures StacksOf(order + [k], stacks) == StacksOf(order, stacks) + StackOf(k, stacks[k])
  {
    assert (order + [k])[..|order|] == order;
  }

  lemma CountMore(ss: seq<Pprof.Stack>, key: Str, count: nat)
    ensures CountOf(ss + StackOf(key, count)) == CountOf(ss) + count
  {
    if count > 0 {
      assert (ss + StackOf(key, count))[..|ss|] == ss;
    } else {
      assert ss + [] == ss;
    }
  }

  lemma ListingMore(order: seq<Str>, done: set<Str>, k: Str)
    requires Listing(order, done) && k !in done
    ensures Listing(order + [k], done + {k})
  {
    var more := order + [k];
    forall j ensures j in more <==> j in done + {k} {
      assert more[|order|] == k;
    }
  }

  /** The root has no label, so every stack counts for it. */
  lemma RootWeight(key: Str, w: nat)
    ensures Weight(Split(key), [], w) == w
  {
  }

  /** Some keys have been listed, the others are still to come. */
  ghost predicate Progress(order: seq<Str>, todo: set<Str>, stacks: map<Str, nat>) {
    && todo <= stacks.Keys && Listing(order, stacks.Keys - todo)
    && CountOf(StacksOf(order, stacks)) + SumOver(todo, stacks, []) == SumOver(stacks.Keys, stacks, [])
  }

  lemma NextKey(order: seq<Str>, todo: set<Str>, stacks: map<Str, nat>, k: Str)
    requires Progress(order, todo, stacks) && k in todo
    ensures Progress(order + [k], todo - {k}, stacks)
    ensures StacksOf(order + [k], stacks) == StacksOf(order, stacks) + StackOf(k, stacks[k])
  {
    SumPick(todo, stacks, [], k);
    RootWeight(k, stacks[k]);
    StacksMore(order, k, stacks);
    CountMore(StacksOf(order, stacks), k, stacks[k]);
    ListingMore(order, stacks.Keys - todo, k);
    assert stacks.Keys - (todo - {k}) == stacks.Keys - todo + {k};
  }

  lemma NoKeyYet(stacks: map<Str, nat>)
    ensures Progress([], stacks.Keys, stacks)
  {
  }

  /** Adds every stack of the map, in the order in which the map gives them. */
  method AddStacks(builder: PprofBuilder.Builder, stacks: map<Str, nat>) returns (ghost order: seq<Str>)
    requires builder.Valid() && builder.content.stacks == []
    modifies builder
    ensures builder.Valid() && Progress(order, {}, stacks) && builder.content.stacks == StacksOf(order, stacks)
  {
    order := [];
    var todo := stacks.Keys;
    NoKeyYet(stacks);
    while todo != {}
      invariant Progress(order, todo, stacks)
      invariant builder.Valid() && builder.content.stacks == StacksOf(order, stacks)
      decreases todo
    {
      var k :| k in todo;
      NextKey(order, todo, stacks, k);
      AddKey(builder, k, stacks[k]);
      order := order + [k];
      todo := todo - {k};
    }
  }

  method AddKey(builder: PprofBuilder.Builder, key: Str, count: nat)
    requires builder.Valid()
    modifies builder
    ensures builder.Valid() && builder.content.stacks == old(builder.content.stacks) + StackOf(key, count)
  {
    builder.AddStack(Split(key), count);
  }

  /**
   The profile of everything reported: a reader gets back one stack for every key, each once, with
   its count; together they count what was reported.
   */
  method WritePprof(r: LocalReporter, time: Word) returns (b: seq<Byte>, ghost order: seq<Str>)
    requires r.Valid()
    ensures Listing(order, r.stacks.Keys)
    ensures PprofBuilder.ReadsBack(b, StacksOf(order, r.stacks))
    ensures CountOf(StacksOf(order, r.stacks)) == WeightOf(r.events, [])
  {
    var builder := new PprofBuilder.Builder();
    order := AddStacks(builder, r.stacks);
    assert r.stacks.Keys - {} == r.stacks.Keys;
    b := builder.Write(time, 0);
  }
}
