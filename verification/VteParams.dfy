/** The fixed-size parameter list and its iterator. */
module VteParams {
  import opened Options
  import opened VteTypes
  import opened VteMachine

  /** `sub` holds each group's length at the group's first slot. The other slots
      are free: they keep whatever earlier sequences left there. */
  ghost predicate Headed(sub: seq<Byte>, gs: seq<seq<U16>>) {
    gs == [] ||
    var init, last := gs[..|gs| - 1], gs[|gs| - 1];
    && Headed(sub, init)
    && last != []
    && Values(init) < |sub|
    && sub[Values(init)] == |last|
  }

  lemma ValuesAppend(gs: seq<seq<U16>>, g: seq<U16>)
    ensures Values(gs + [g]) == Values(gs) + |g|
  {
    assert (gs + [g])[..|gs|] == gs;
  }

  lemma {:induction false} HeadedFrame(sub: seq<Byte>, sub': seq<Byte>, gs: seq<seq<U16>>)
    requires Headed(sub, gs) && Values(gs) <= |sub'| && |sub| == |sub'|
    requires forall i :: 0 <= i < Values(gs) ==> sub'[i] == sub[i]
    ensures Headed(sub', gs)
  {
    if gs != [] {
      HeadedFrame(sub, sub', gs[..|gs| - 1]);
    }
  }

  /** What the iterator relies on: where group `k` starts and how long it is. */
  lemma {:induction false} HeadedAt(sub: seq<Byte>, gs: seq<seq<U16>>, k: nat)
    requires Headed(sub, gs) && k < |gs|
    ensures 0 < |gs[k]| && Values(gs[..k]) + |gs[k]| == Values(gs[..k + 1]) <= Values(gs) == |Concat(gs)|
    ensures Values(gs[..k]) < |sub| && sub[Values(gs[..k])] == |gs[k]|
    ensures Concat(gs)[Values(gs[..k])..Values(gs[..k + 1])] == gs[k]
  {
    var n := |gs| - 1;
    var init := gs[..n];
    assert gs == init + [gs[n]];
    ConcatAppend(init, [gs[n]]);
    assert Concat([gs[n]]) == gs[n];
    ConcatLength(init);
    ConcatLength(gs);
    assert gs[..k + 1][..k] == gs[..k];
    if k < n {
      assert init[..k] == gs[..k] && init[..k + 1] == gs[..k + 1];
      HeadedAt(sub, init, k);
    } else {
      assert gs[..k + 1] == gs;
    }
  }

  lemma {:induction false} ConcatLength(gs: seq<seq<U16>>)
    ensures |Concat(gs)| == Values(gs)
  {
    if gs != [] {
      var n := |gs| - 1;
      assert gs == gs[..n] + [gs[n]];
      ConcatAppend(gs[..n], [gs[n]]);
      assert Concat([gs[n]]) == gs[n];
      ConcatLength(gs[..n]);
    }
  }

  // ---- Which slots have been written ----

  datatype Op = DoPush(item: U16) | DoExtend(item: U16) | DoClear

  /** What a run of operations leaves: the list, and every slot that was ever the head of
      a group. */
  datatype ListState = ListState(closed: seq<seq<U16>>, open: seq<U16>, heads: set<nat>)

  const EMPTY := ListState([], [], {})

  function GroupsOf(s: ListState): seq<seq<U16>> {
    if s.open == [] then s.closed else s.closed + [s.open]
  }

  predicate Legal(s: ListState, op: Op) {
    op.DoClear? || Values(s.closed) + |s.open| < MAX_PARAMS
  }

  function Apply(s: ListState, op: Op): ListState {
    match op
    case DoPush(item) => ListState(s.closed + [s.open + [item]], [], s.heads + {Values(s.closed)})
    case DoExtend(item) => ListState(s.closed, s.open + [item], s.heads + {Values(s.closed)})
    case DoClear => ListState([], [], s.heads)
  }

  function ApplyAll(ops: seq<Op>): ListState {
    if ops == [] then EMPTY else Apply(ApplyAll(ops[..|ops| - 1]), ops[|ops| - 1])
  }

  /** Slot `i` is where a group starts. */
  ghost predicate IsStart(gs: seq<seq<U16>>, i: nat) {
    exists k :: 0 <= k < |gs| && Values(gs[..k]) == i
  }

  /** Slot `i` holds a sub-parameter that does not start its group. */
  ghost predicate IsSubPosition(gs: seq<seq<U16>>, i: nat) {
    i < Values(gs) && !IsStart(gs, i)
  }

  /** A slot is not zero exactly when it was once written as a head. */
  ghost predicate WrittenAt(sub: seq<Byte>, heads: set<nat>) {
    forall i :: 0 <= i < |sub| ==> (sub[i] != 0 <==> i in heads)
  }

  lemma StartsAppend(gs: seq<seq<U16>>, g: seq<U16>, i: nat)
    ensures IsStart(gs + [g], i) <==> IsStart(gs, i) || i == Values(gs)
  {
    hide Values;
    var all := gs + [g];
    assert all[..|gs|] == gs && forall k :: 0 <= k <= |gs| ==> all[..k] == gs[..k];
    if IsStart(gs, i) {
      var k :| 0 <= k < |gs| && Values(gs[..k]) == i;
      assert Values(all[..k]) == i;
    }
    if i == Values(gs) {
      assert Values(all[..|gs|]) == i;
    }
  }

  lemma ApplyStarts(s: ListState, op: Op, i: nat)
    ensures var t := GroupsOf(Apply(s, op));
            && (op.DoClear? ==> !IsStart(t, i))
            && (!op.DoClear? ==> (IsStart(t, i) <==> IsStart(GroupsOf(s), i) || i == Values(s.closed)))
  {
    hide Values, IsStart;
    StartsAppend(s.closed, s.open, i);
    match op
    case DoPush(item) => StartsAppend(s.closed, s.open + [item], i);
    case DoExtend(item) => StartsAppend(s.closed, s.open + [item], i);
    case DoClear => NoStart(i);
  }

  lemma NoStart(i: nat)
    ensures !IsStart([], i)
  {
  }

  /** The heads are the starts of all the groups that the run has ever had. */
  lemma {:induction false} HeadsAre(ops: seq<Op>, i: nat)
    ensures i in ApplyAll(ops).heads <==> exists k :: 0 <= k <= |ops| && IsStart(GroupsOf(ApplyAll(ops[..k])), i)
  {
    assert i !in EMPTY.heads && !IsStart(GroupsOf(EMPTY), i);
    hide Values, IsStart, GroupsOf;
    assert ops[..|ops|] == ops;
    if ops == [] {
    } else {
      var n := |ops| - 1;
      var s := ApplyAll(ops[..n]);
      HeadsAre(ops[..n], i);
      ApplyStarts(s, ops[n], i);
      assert forall k :: 0 <= k <= n ==> ops[..n][..k] == ops[..k];
      assert IsStart(GroupsOf(s), i) ==> IsStart(GroupsOf(ApplyAll(ops[..n])), i);
    }
  }

  lemma ConcatLast(gs: seq<seq<U16>>, g: seq<U16>)
    ensures Concat(gs + [g]) == Concat(gs) + g
  {
    ConcatAppend(gs, [g]);
    assert Concat([g]) == g;
  }

  class Params {
    /** Number of sub-parameters of the group that starts at this slot. */
    const subparams: array<Byte>
    const params: array<U16>
    var currentSubparams: Byte
    var len: nat

    /** The finished groups, and the group that `Extend` is building. */
    ghost var closed: seq<seq<U16>>
    ghost var open: seq<U16>
    /** Every slot of `subparams` that was ever written. */
    ghost var heads: set<nat>

    ghost function List(): ListState
      reads this
    {
      ListState(closed, open, heads)
    }

    /** The list of groups this object stands for. */
    ghost function Groups(): seq<seq<U16>>
      reads this
    {
      if open == [] then closed else closed + [open]
    }

    ghost predicate Valid()
      reads this, subparams, params
    {
      && subparams.Length == params.Length == MAX_PARAMS
      && subparams as object != params
      && len == Values(closed) + |open| <= MAX_PARAMS
      && currentSubparams == |open|
      && params[..len] == Concat(closed) + open
      && Headed(subparams[..], Groups())
      && Headed(subparams[..], closed)
      && WrittenAt(subparams[..], heads)
    }

    /** The documented state of `subparams`: zero at the positions of sub-parameters. */
    ghost predicate ZeroAtSubparams()
      requires Valid()
      reads this, subparams, params
    {
      forall i :: 0 <= i < MAX_PARAMS && IsSubPosition(Groups(), i) ==> subparams[i] == 0
    }

    /** It holds exactly when no list that the object has ever held, this one included, had
        a group start where this one has a sub-parameter. */
    lemma ZeroAtSubparamsIff(ops: seq<Op>)
      requires Valid() && List() == ApplyAll(ops)
      ensures ZeroAtSubparams() <==>
              forall i, k :: IsSubPosition(Groups(), i) && 0 <= k <= |ops| ==> !IsStart(GroupsOf(ApplyAll(ops[..k])), i)
    {
      hide Values, IsStart, Headed, ApplyAll;
      forall i: nat
        ensures i in heads <==> exists k :: 0 <= k <= |ops| && IsStart(GroupsOf(ApplyAll(ops[..k])), i)
      {
        HeadsAre(ops, i);
      }
      ConcatGroups();
      assert forall i :: 0 <= i < MAX_PARAMS ==> (subparams[i] != 0 <==> i in heads) by {
        assert forall i :: 0 <= i < MAX_PARAMS ==> subparams[..][i] == subparams[i];
      }
    }

    lemma ConcatGroups()
      requires Valid()
      ensures params[..len] == Concat(Groups()) && len == Values(Groups())
    {
      ConcatAppend(closed, [open]);
      assert Concat([open]) == open;
      ValuesAppend(closed, open);
    }

    constructor ()
      ensures Valid() && closed == [] && open == [] && List() == ApplyAll([])
      ensures fresh(subparams) && fresh(params)
    {
      subparams := new Byte[MAX_PARAMS](_ => 0);
      params := new U16[MAX_PARAMS](_ => 0);
      currentSubparams, len := 0, 0;
      closed, open, heads := [], [], {};
    }

    method IsFull() returns (full: bool)
      requires Valid()
      ensures full <==> Values(closed) + |open| == MAX_PARAMS
      ensures Values(closed) + |open| <= MAX_PARAMS
    {
      full := len == MAX_PARAMS;
    }

    method Clear()
      requires Valid()
      modifies this
      ensures Valid() && closed == [] && open == [] && List() == Apply(old(List()), DoClear)
    {
      currentSubparams := 0;
      len := 0;
      closed, open := [], [];
    }

    /** Write `item` into the next slot and count it at the head of its group. */
    method Store(item: U16)
      requires Valid() && Values(closed) + |open| < MAX_PARAMS
      modifies subparams, params
      ensures params[..len + 1] == Concat(closed) + (open + [item])
      ensures Headed(subparams[..], closed) && Headed(subparams[..], closed + [open + [item]])
      ensures WrittenAt(subparams[..], heads + {Values(closed)})
    {
      subparams[len - currentSubparams] := currentSubparams + 1;
      params[len] := item;
      HeadedFrame(old(subparams[..]), subparams[..], closed);
      assert params[..len] == old(params[..len]);
    }

    method Push(item: U16)
      requires Valid() && Values(closed) + |open| < MAX_PARAMS
      modifies this, subparams, params
      ensures Valid() && closed == old(closed) + [old(open) + [item]] && open == []
      ensures List() == Apply(old(List()), DoPush(item))
    {
      hide Headed, WrittenAt, Values, Concat;
      Store(item);
      ConcatLast(closed, open + [item]);
      ValuesAppend(closed, open + [item]);
      currentSubparams := 0;
      len := len + 1;
      heads := heads + {Values(closed)};
      closed, open := closed + [open + [item]], [];
    }

    method Extend(item: U16)
      requires Valid() && Values(closed) + |open| < MAX_PARAMS
      modifies this, subparams, params
      ensures Valid() && closed == old(closed) && open == old(open) + [item]
      ensures List() == Apply(old(List()), DoExtend(item))
    {
      hide Headed, WrittenAt, Values, Concat;
      Store(item);
      currentSubparams := currentSubparams + 1;
      len := len + 1;
      heads := heads + {Values(closed)};
      open := open + [item];
    }
  }

  class ParamsIter {
    const params: Params
    var index: nat
    /** How many groups have been yielded. */
    ghost var yielded: nat

    ghost predicate Valid()
      reads this, params, params.subparams, params.params
    {
      && params.Valid()
      && yielded <= |params.Groups()|
      && index == Values(params.Groups()[..yielded])
    }

    constructor (params: Params)
      requires params.Valid()
      ensures Valid() && this.params == params && yielded == 0
    {
      this.params := params;
      index := 0;
      yielded := 0;
    }

    /** Both bounds are the number of values that remain: never below the number of groups
        that remain, and equal to it exactly when none of them has sub-parameters. */
    method SizeHint() returns (lower: nat, upper: nat)
      requires Valid()
      ensures lower == upper >= |params.Groups()| - yielded
      ensures lower == |params.Groups()| - yielded <==>
              forall j :: yielded <= j < |params.Groups()| ==> |params.Groups()[j]| == 1
    {
      hide Headed, Values;
      params.ConcatGroups();
      GroupsNonEmpty(params.subparams[..], params.Groups());
      ManyValues(params.Groups(), yielded);
      lower := params.len - index;
      upper := lower;
    }

    /** Yields the groups one after the other, then `None`. */
    method Next() returns (group: Option<seq<U16>>)
      requires Valid()
      modifies this
      ensures Valid()
      ensures old(yielded) < |params.Groups()| ==>
                group == Some(params.Groups()[old(yielded)]) && yielded == old(yielded) + 1
      ensures old(yielded) == |params.Groups()| ==> group == None && yielded == old(yielded)
    {
      hide Headed, Values;
      ghost var gs := params.Groups();
      ghost var k := yielded;
      params.ConcatGroups();
      if k < |gs| { HeadedAt(params.subparams[..], gs, k); } else { assert gs[..k] == gs; }
      if index >= params.len {
        return None;
      }
      var n := params.subparams[index];
      var slice := params.params[index..index + n];
      assert slice == params.params[..params.len][index..index + n];
      group := Some(slice);
      index := index + n;
      yielded := yielded + 1;
    }
  }

  /** A list that is reused: the stored 1 of the second group of the first list lies at the
      sub-parameter of the second list. */
  lemma StaleSlot(a: U16, b: U16, c: U16, d: U16)
    ensures var s := ApplyAll([DoPush(a), DoPush(b), DoClear, DoExtend(c), DoPush(d)]);
            GroupsOf(s) == [[c, d]] && IsSubPosition(GroupsOf(s), 1) && 1 in s.heads
  {
    assert ApplyAll([]) == EMPTY && Values([]) == 0;
    hide ApplyAll, Values;
    var two := [DoPush(a), DoPush(b)];
    ApplyAppend([], DoPush(a));
    ApplyAppend([DoPush(a)], DoPush(b));
    ApplyAppend(two, DoClear);
    ApplyAppend(two + [DoClear], DoExtend(c));
    ApplyAppend(two + [DoClear] + [DoExtend(c)], DoPush(d));
    assert [] + [DoPush(a)] == [DoPush(a)] && [DoPush(a)] + [DoPush(b)] == two;
    assert two + [DoClear] + [DoExtend(c)] + [DoPush(d)] == [DoPush(a), DoPush(b), DoClear, DoExtend(c), DoPush(d)];
    ValuesAppend([], [a]);
    ValuesAppend([], [c, d]);
    var none: seq<U16> := [];
    assert none + [a] == [a] && none + [c] == [c] && [c] + [d] == [c, d];
    assert [] + [none + [a]] == [[a]] && [] + [[c] + [d]] == [[c, d]] && [] + [[c, d]] == [[c, d]];
    assert forall k :: 0 <= k < 1 ==> [[c, d]][..k] == [];
  }

  lemma ApplyAppend(ops: seq<Op>, op: Op)
    ensures ApplyAll(ops + [op]) == Apply(ApplyAll(ops), op)
  {
    assert (ops + [op])[..|ops|] == ops;
  }

  lemma {:induction false} ManyValues(gs: seq<seq<U16>>, k: nat)
    requires k <= |gs| && forall j :: 0 <= j < |gs| ==> gs[j] != []
    ensures Values(gs) - Values(gs[..k]) >= |gs| - k
    ensures Values(gs) - Values(gs[..k]) == |gs| - k <==> forall j :: k <= j < |gs| ==> |gs[j]| == 1
    decreases |gs|
  {
    if k == |gs| {
      assert gs[..k] == gs;
    } else {
      var n := |gs| - 1;
      assert gs[..n][..k] == gs[..k];
      ManyValues(gs[..n], k);
    }
  }

  lemma {:induction false} GroupsNonEmpty(sub: seq<Byte>, gs: seq<seq<U16>>)
    requires Headed(sub, gs)
    ensures forall j :: 0 <= j < |gs| ==> gs[j] != []
  {
    if gs != [] {
      GroupsNonEmpty(sub, gs[..|gs| - 1]);
    }
  }

  /** Drain an iterator, as a handler does with `params.iter()`. */
  method CollectGroups(params: Params) returns (groups: seq<seq<U16>>)
    requires params.Valid()
    ensures groups == params.Groups()
  {
    hide Params.Valid, Values;
    var it := new ParamsIter(params);
    groups := [];
    var group := it.Next();
    while group.Some?
      invariant it.Valid() && fresh(it) && it.params == params
      invariant |groups| <= |params.Groups()| && groups == params.Groups()[..|groups|]
      invariant group.Some? ==> |groups| < |params.Groups()| && group.value == params.Groups()[|groups|]
      invariant it.yielded == |groups| + (if group.Some? then 1 else 0)
      invariant group.None? ==> |groups| == |params.Groups()|
      decreases |params.Groups()| - |groups|
    {
      groups := groups + [group.value];
      group := it.Next();
    }
  }
}
