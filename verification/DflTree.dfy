/**
 What a walk over a memory image visits, and what it records.

 A Level is the finite unfolding of a feature list: one exists for a start address
 exactly when the walk from that address ends.  Unfolds relates it to the memory.
 */
module DflTree {
  import opened DflFormat

  /** The DFHs of one level: the last one, or one with others behind it. */
  datatype Level =
    | Final(params: Params)
    | Link(params: Params, rest: Level)

  /** A DFH's parameter list: absent, the null block, the last block, or a block before others. */
  datatype Params =
    | Absent
    | Null
    | Last(sub: Sub)
    | Cons(sub: Sub, tail: Params)

  /** What a block leads to: nothing, or the sub-list of a branch block. */
  datatype Sub =
    | Plain
    | Branch(level: Level)

  ghost predicate Unfolds(mem: Memory, dfh: Address, t: Level)
    decreases t
  {
    && UnfoldsList(mem, dfh, t.params)
    && if IsEol(Read64(mem, dfh, 0)) then t.Final?
       else t.Link? && Unfolds(mem, NextDfh(mem, dfh), t.rest)
  }

  ghost predicate UnfoldsList(mem: Memory, dfh: Address, ps: Params)
    decreases ps, 1
  {
    if HasParams(Read64(mem, dfh, 0x20)) then UnfoldsParams(mem, dfh, FirstParam(dfh), ps)
    else ps == Absent
  }

  ghost predicate UnfoldsParams(mem: Memory, dfh: Address, p: Address, ps: Params)
    decreases ps, 0
  {
    var header := mem(p);
    if IsNullParam(header) then ps == Null
    else if IsLastParam(header) then ps.Last? && UnfoldsSub(mem, dfh, p, ps.sub)
    else
      && ps.Cons?
      && UnfoldsSub(mem, dfh, p, ps.sub)
      && UnfoldsParams(mem, dfh, NextParam(mem, p), ps.tail)
  }

  ghost predicate UnfoldsSub(mem: Memory, dfh: Address, p: Address, s: Sub)
    decreases s
  {
    if ParamId(mem(p)) == BRANCH_ID
    then s.Branch? && Unfolds(mem, SubAddress(mem, dfh, p), s.level)
    else s.Plain?
  }

  function NextDfh(mem: Memory, dfh: Address): Address {
    Ptr(dfh + NextDfhOffset(Read64(mem, dfh, 0)))
  }

  function FirstParam(dfh: Address): Address {
    Ptr(dfh + FIRST_PARAM)
  }

  function NextParam(mem: Memory, p: Address): Address {
    Ptr(p + NextParamOffset(mem(p)))
  }

  function SubAddress(mem: Memory, dfh: Address, p: Address): Address {
    BranchTarget(Read64(mem, p, HEADER_BYTES), dfh)
  }

  /** The number of DFHs in a walk. */
  function Nodes(t: Level): nat {
    match t
    case Final(ps) => 1 + NodesIn(ps)
    case Link(ps, rest) => 1 + NodesIn(ps) + Nodes(rest)
  }

  function NodesIn(ps: Params): nat {
    match ps
    case Last(s) => NodesUnder(s)
    case Cons(s, tail) => NodesUnder(s) + NodesIn(tail)
    case _ => 0
  }

  function NodesUnder(s: Sub): nat {
    match s
    case Plain => 0
    case Branch(level) => Nodes(level)
  }

  // ---------- what the walk records ----------

  datatype Param = Param(version: nat, id: nat, data: seq<nat>)

  datatype Info = Info(base: nat, guidH: nat, guidL: nat, instance: nat, group: nat, parent: int,
                       mmioOpened: bool, interruptOpened: bool, params: seq<Param>)

  const ZERO_PARAM := Param(0, 0, [])
  const ZERO_INFO := Info(0, 0, 0, 0, 0, 0, false, false, [])

  function DataAt(mem: Memory, p: Address, n: nat): seq<nat> {
    seq(n, i requires 0 <= i < n => mem(Ptr(p + HEADER_BYTES + 8 * i)))
  }

  function ParamAt(mem: Memory, p: Address): Param
    requires !IsNullParam(mem(p)) && (IsLastParam(mem(p)) || NextParamOffset(mem(p)) > 0)
  {
    Param(ParamVersion(mem(p)), ParamId(mem(p)), DataAt(mem, p, DataWords(mem(p))))
  }

  /**
   The blocks from p on.  A list that ends in the null block leaves a zeroed entry
   for it, because the array is grown before the next header is looked at.
   */
  ghost function Blocks(mem: Memory, dfh: Address, p: Address, ps: Params): seq<Param>
    requires UnfoldsParams(mem, dfh, p, ps)
    decreases ps
  {
    match ps
    case Null => [ZERO_PARAM]
    case Last(_) => [ParamAt(mem, p)]
    case Cons(_, tail) =>
      MovesOn(mem, dfh, p, ps);
      [ParamAt(mem, p)] + Blocks(mem, dfh, NextParam(mem, p), tail)
  }

  /** A block that is not the last has a next one elsewhere: a zero offset would never end. */
  lemma {:induction false} MovesOn(mem: Memory, dfh: Address, p: Address, ps: Params)
    requires UnfoldsParams(mem, dfh, p, ps) && ps.Cons?
    ensures NextParamOffset(mem(p)) > 0
    decreases ps
  {
    if NextParamOffset(mem(p)) == 0 {
      assert NextParam(mem, p) == p;
      MovesOn(mem, dfh, p, ps.tail);
    }
  }

  ghost function ParamsAt(mem: Memory, dfh: Address, ps: Params): seq<Param>
    requires UnfoldsList(mem, dfh, ps)
  {
    if ps.Absent? || ps.Null? then [] else Blocks(mem, dfh, FirstParam(dfh), ps)
  }

  ghost function InfoAt(mem: Memory, dfh: Address, ps: Params, parent: int): Info
    requires UnfoldsList(mem, dfh, ps)
  {
    var group := Read64(mem, dfh, 0x20);
    Info(BaseAddress(Read64(mem, dfh, 0x18), dfh), Read64(mem, dfh, 0x10), Read64(mem, dfh, 0x08),
         InstanceId(group), GroupId(group), parent, false, false, ParamsAt(mem, dfh, ps))
  }

  /**
   The entries the collecting walk appends for a level whose first DFH gets index k.
   A branch labels its sub-list with the index recorded last, which is its own DFH's
   index only for the first branch of that DFH.
   */
  ghost function Collected(mem: Memory, dfh: Address, t: Level, k: nat, parent: int): (infos: seq<Info>)
    requires Unfolds(mem, dfh, t)
    ensures |infos| == Nodes(t)
    decreases t
  {
    var own := CollectedDfh(mem, dfh, t.params, k, parent);
    if t.Final? then own
    else own + Collected(mem, NextDfh(mem, dfh), t.rest, k + |own|, parent)
  }

  /** One DFH and everything under it. */
  ghost function CollectedDfh(mem: Memory, dfh: Address, ps: Params, k: nat, parent: int): (infos: seq<Info>)
    requires UnfoldsList(mem, dfh, ps)
    ensures |infos| == 1 + NodesIn(ps)
    decreases ps, 1
  {
    [InfoAt(mem, dfh, ps, parent)] +
    if ps.Absent? then [] else CollectedParams(mem, dfh, FirstParam(dfh), ps, k)
  }

  /** The entries appended while the list from p on is processed; `last` was the last index recorded. */
  ghost function CollectedParams(mem: Memory, dfh: Address, p: Address, ps: Params, last: nat): (infos: seq<Info>)
    requires UnfoldsParams(mem, dfh, p, ps)
    ensures |infos| == NodesIn(ps)
    decreases ps, 0
  {
    match ps
    case Null => []
    case Last(s) => CollectedSub(mem, dfh, p, s, last)
    case Cons(s, tail) =>
      var sub := CollectedSub(mem, dfh, p, s, last);
      sub + CollectedParams(mem, dfh, NextParam(mem, p), tail, last + |sub|)
  }

  ghost function CollectedSub(mem: Memory, dfh: Address, p: Address, s: Sub, last: nat): (infos: seq<Info>)
    requires UnfoldsSub(mem, dfh, p, s)
    ensures |infos| == NodesUnder(s)
    decreases s
  {
    match s
    case Plain => []
    case Branch(level) => Collected(mem, SubAddress(mem, dfh, p), level, last + 1, last)
  }

  // ---------- the intended flattening ----------

  /** The preorder flattening in which every sub-list is labelled with its own DFH's index. */
  ghost function Flattened(mem: Memory, dfh: Address, t: Level, k: nat, parent: int): (infos: seq<Info>)
    requires Unfolds(mem, dfh, t)
    ensures |infos| == Nodes(t)
    decreases t
  {
    var own := FlattenedDfh(mem, dfh, t.params, k, parent);
    if t.Final? then own
    else own + Flattened(mem, NextDfh(mem, dfh), t.rest, k + |own|, parent)
  }

  ghost function FlattenedDfh(mem: Memory, dfh: Address, ps: Params, k: nat, parent: int): (infos: seq<Info>)
    requires UnfoldsList(mem, dfh, ps)
    ensures |infos| == 1 + NodesIn(ps)
    decreases ps, 1
  {
    [InfoAt(mem, dfh, ps, parent)] +
    if ps.Absent? then [] else FlattenedParams(mem, dfh, FirstParam(dfh), ps, k, k + 1)
  }

  ghost function FlattenedParams(
      mem: Memory, dfh: Address, p: Address, ps: Params, self: nat, k: nat): (infos: seq<Info>)
    requires UnfoldsParams(mem, dfh, p, ps)
    ensures |infos| == NodesIn(ps)
    decreases ps, 0
  {
    match ps
    case Null => []
    case Last(s) => FlattenedSub(mem, dfh, p, s, self, k)
    case Cons(s, tail) =>
      var sub := FlattenedSub(mem, dfh, p, s, self, k);
      sub + FlattenedParams(mem, dfh, NextParam(mem, p), tail, self, k + |sub|)
  }

  ghost function FlattenedSub(mem: Memory, dfh: Address, p: Address, s: Sub, self: nat, k: nat): (infos: seq<Info>)
    requires UnfoldsSub(mem, dfh, p, s)
    ensures |infos| == NodesUnder(s)
    decreases s
  {
    match s
    case Plain => []
    case Branch(level) => Flattened(mem, SubAddress(mem, dfh, p), level, k, self)
  }

  function Branches(ps: Params): nat {
    match ps
    case Last(s) => if s.Branch? then 1 else 0
    case Cons(s, tail) => (if s.Branch? then 1 else 0) + Branches(tail)
    case _ => 0
  }

  /** No DFH of the walk carries two branch blocks. */
  predicate SingleBranch(t: Level) {
    && Branches(t.params) <= 1
    && SingleBranchIn(t.params)
    && (t.Link? ==> SingleBranch(t.rest))
  }

  predicate SingleBranchIn(ps: Params) {
    match ps
    case Last(s) => SingleBranchUnder(s)
    case Cons(s, tail) => SingleBranchUnder(s) && SingleBranchIn(tail)
    case _ => true
  }

  predicate SingleBranchUnder(s: Sub) {
    s.Branch? ==> SingleBranch(s.level)
  }

  /** The walk records the intended flattening exactly when no DFH has two branches. */
  lemma {:induction false} CollectsFlattening(mem: Memory, dfh: Address, t: Level, k: nat, parent: int)
    requires Unfolds(mem, dfh, t)
    ensures Collected(mem, dfh, t, k, parent) == Flattened(mem, dfh, t, k, parent) <==> SingleBranch(t)
    decreases t
  {
    hide *;
    LevelUnfold(mem, dfh, t, k, parent);
    CollectsFlatteningDfh(mem, dfh, t.params, k, parent);
    if t.Link? {
      var next, at := NextDfh(mem, dfh), k + 1 + NodesIn(t.params);
      CollectsFlattening(mem, next, t.rest, at, parent);
      SplitEqual(CollectedDfh(mem, dfh, t.params, k, parent), Collected(mem, next, t.rest, at, parent),
                 FlattenedDfh(mem, dfh, t.params, k, parent), Flattened(mem, next, t.rest, at, parent));
    }
  }

  lemma LevelUnfold(mem: Memory, dfh: Address, t: Level, k: nat, parent: int)
    requires Unfolds(mem, dfh, t)
    ensures UnfoldsList(mem, dfh, t.params)
    ensures SingleBranch(t) <==>
      Branches(t.params) <= 1 && SingleBranchIn(t.params) && (t.Link? ==> SingleBranch(t.rest))
    ensures t.Final? ==> Collected(mem, dfh, t, k, parent) == CollectedDfh(mem, dfh, t.params, k, parent)
    ensures t.Final? ==> Flattened(mem, dfh, t, k, parent) == FlattenedDfh(mem, dfh, t.params, k, parent)
    ensures t.Link? ==> Unfolds(mem, NextDfh(mem, dfh), t.rest)
    ensures t.Link? ==>
      Collected(mem, dfh, t, k, parent) == CollectedDfh(mem, dfh, t.params, k, parent)
      + Collected(mem, NextDfh(mem, dfh), t.rest, k + 1 + NodesIn(t.params), parent)
    ensures t.Link? ==>
      Flattened(mem, dfh, t, k, parent) == FlattenedDfh(mem, dfh, t.params, k, parent)
      + Flattened(mem, NextDfh(mem, dfh), t.rest, k + 1 + NodesIn(t.params), parent)
  {
    hide UnfoldsList, CollectedDfh, FlattenedDfh, NextDfh, NodesIn, Branches, SingleBranchIn, IsEol;
  }

  lemma {:induction false} CollectsFlatteningDfh(mem: Memory, dfh: Address, ps: Params, k: nat, parent: int)
    requires UnfoldsList(mem, dfh, ps)
    ensures CollectedDfh(mem, dfh, ps, k, parent) == FlattenedDfh(mem, dfh, ps, k, parent)
      <==> Branches(ps) <= 1 && SingleBranchIn(ps)
    decreases ps, 1
  {
    hide InfoAt, FirstParam;
    if !ps.Absent? {
      var info, first := [InfoAt(mem, dfh, ps, parent)], FirstParam(dfh);
      CollectsFlatteningParams(mem, dfh, first, ps, k, k);
      SplitEqual(info, CollectedParams(mem, dfh, first, ps, k), info, FlattenedParams(mem, dfh, first, ps, k, k + 1));
    }
  }

  /**
   Inside one list: as long as nothing has been recorded since the owner (last == self)
   the labels agree up to and including the first branch; once something has
   (last > self) every further branch is labelled wrongly.
   */
  lemma {:induction false} CollectsFlatteningParams(
      mem: Memory, dfh: Address, p: Address, ps: Params, self: nat, last: nat)
    requires UnfoldsParams(mem, dfh, p, ps) && self <= last
    ensures CollectedParams(mem, dfh, p, ps, last) == FlattenedParams(mem, dfh, p, ps, self, last + 1)
      <==> SingleBranchIn(ps) && Branches(ps) <= (if last == self then 1 else 0)
    decreases ps, 0
  {
    hide *;
    ListUnfold(mem, dfh, p, ps, self, last);
    if !ps.Null? {
      CollectsFlatteningSub(mem, dfh, p, ps.sub, self, last);
    }
    if ps.Cons? {
      var next, n := NextParam(mem, p), NodesUnder(ps.sub);
      CollectsFlatteningParams(mem, dfh, next, ps.tail, self, last + n);
      SplitEqual(
        CollectedSub(mem, dfh, p, ps.sub, last), CollectedParams(mem, dfh, next, ps.tail, last + n),
        FlattenedSub(mem, dfh, p, ps.sub, self, last + 1),
        FlattenedParams(mem, dfh, next, ps.tail, self, last + 1 + n));
    }
  }

  lemma ListUnfold(mem: Memory, dfh: Address, p: Address, ps: Params, self: nat, last: nat)
    requires UnfoldsParams(mem, dfh, p, ps)
    ensures !ps.Absent?
    ensures ps.Null? ==> CollectedParams(mem, dfh, p, ps, last) == FlattenedParams(mem, dfh, p, ps, self, last + 1)
    ensures ps.Null? ==> SingleBranchIn(ps) && Branches(ps) == 0
    ensures !ps.Null? ==> UnfoldsSub(mem, dfh, p, ps.sub) && (ps.sub.Branch? <==> NodesUnder(ps.sub) > 0)
    ensures ps.Last? ==> CollectedParams(mem, dfh, p, ps, last) == CollectedSub(mem, dfh, p, ps.sub, last)
    ensures ps.Last? ==>
      FlattenedParams(mem, dfh, p, ps, self, last + 1) == FlattenedSub(mem, dfh, p, ps.sub, self, last + 1)
    ensures ps.Last? ==> (SingleBranchIn(ps) <==> SingleBranchUnder(ps.sub))
    ensures ps.Last? ==> Branches(ps) == if ps.sub.Branch? then 1 else 0
    ensures ps.Cons? ==> UnfoldsParams(mem, dfh, NextParam(mem, p), ps.tail)
    ensures ps.Cons? ==>
      CollectedParams(mem, dfh, p, ps, last) == CollectedSub(mem, dfh, p, ps.sub, last)
      + CollectedParams(mem, dfh, NextParam(mem, p), ps.tail, last + NodesUnder(ps.sub))
    ensures ps.Cons? ==>
      FlattenedParams(mem, dfh, p, ps, self, last + 1)
      == FlattenedSub(mem, dfh, p, ps.sub, self, last + 1)
      + FlattenedParams(mem, dfh, NextParam(mem, p), ps.tail, self, last + 1 + NodesUnder(ps.sub))
    ensures ps.Cons? ==> (SingleBranchIn(ps) <==> SingleBranchUnder(ps.sub) && SingleBranchIn(ps.tail))
    ensures ps.Cons? ==> Branches(ps) == (if ps.sub.Branch? then 1 else 0) + Branches(ps.tail)
  {
    hide UnfoldsSub, CollectedSub, FlattenedSub, NodesUnder, SingleBranchUnder, NextParam, IsLastParam, NextParamOffset;
    if !ps.Null? {
      assert UnfoldsSub(mem, dfh, p, ps.sub);
      SubNodes(ps.sub);
    }
  }

  lemma SubNodes(s: Sub)
    ensures s.Branch? <==> NodesUnder(s) > 0
  {
  }

  lemma {:induction false} CollectsFlatteningSub(mem: Memory, dfh: Address, p: Address, s: Sub, self: nat, last: nat)
    requires UnfoldsSub(mem, dfh, p, s) && self <= last
    ensures CollectedSub(mem, dfh, p, s, last) == FlattenedSub(mem, dfh, p, s, self, last + 1)
      <==> SingleBranchUnder(s) && (s.Branch? ==> last == self)
    decreases s
  {
    hide Collected, Flattened, Unfolds, SubAddress;
    if s.Branch? {
      var target := SubAddress(mem, dfh, p);
      CollectsFlattening(mem, target, s.level, last + 1, last);
      HeadLabels(mem, target, s.level, last + 1, last);
      HeadLabels(mem, target, s.level, last + 1, self);
    }
  }

  /** The first entry of a level carries the label the level was given. */
  lemma HeadLabels(mem: Memory, dfh: Address, t: Level, k: nat, parent: int)
    requires Unfolds(mem, dfh, t)
    ensures Collected(mem, dfh, t, k, parent)[0].parent == parent
    ensures Flattened(mem, dfh, t, k, parent)[0].parent == parent
  {
  }

  /** Equal concatenations of equally long parts have equal parts. */
  lemma SplitEqual<T>(a: seq<T>, b: seq<T>, c: seq<T>, d: seq<T>)
    requires |a| == |c|
    ensures a + b == c + d <==> a == c && b == d
  {
    if a + b == c + d {
      assert a == (a + b)[..|a|] && c == (c + d)[..|c|];
      assert b == (a + b)[|a|..] && d == (c + d)[|c|..];
    }
  }

  ghost predicate ParentsBelow(infos: seq<Info>, k: nat) {
    forall i :: 0 <= i < |infos| ==> -1 <= infos[i].parent < k + i
  }

  lemma BelowJoins(a: seq<Info>, b: seq<Info>, k: nat)
    requires ParentsBelow(a, k) && ParentsBelow(b, k + |a|)
    ensures ParentsBelow(a + b, k)
  {
  }

  /** Every recorded parent precedes the entry it labels. */
  lemma {:induction false} ParentsPrecede(mem: Memory, dfh: Address, t: Level, k: nat, parent: int)
    requires Unfolds(mem, dfh, t) && -1 <= parent < k
    ensures ParentsBelow(Collected(mem, dfh, t, k, parent), k)
    decreases t
  {
    hide *;
    LevelUnfold(mem, dfh, t, k, parent);
    ParentsPrecedeDfh(mem, dfh, t.params, k, parent);
    if t.Link? {
      var next, at := NextDfh(mem, dfh), k + 1 + NodesIn(t.params);
      ParentsPrecede(mem, next, t.rest, at, parent);
      BelowJoins(CollectedDfh(mem, dfh, t.params, k, parent), Collected(mem, next, t.rest, at, parent), k);
    }
  }

  lemma {:induction false} ParentsPrecedeDfh(mem: Memory, dfh: Address, ps: Params, k: nat, parent: int)
    requires UnfoldsList(mem, dfh, ps) && -1 <= parent < k
    ensures ParentsBelow(CollectedDfh(mem, dfh, ps, k, parent), k)
    decreases ps, 1
  {
    hide CollectedParams, UnfoldsParams, FirstParam, ParamsAt, BaseAddress;
    if !ps.Absent? {
      ParentsPrecedeIn(mem, dfh, FirstParam(dfh), ps, k);
    }
  }

  lemma {:induction false} ParentsPrecedeIn(mem: Memory, dfh: Address, p: Address, ps: Params, last: nat)
    requires UnfoldsParams(mem, dfh, p, ps)
    ensures ParentsBelow(CollectedParams(mem, dfh, p, ps, last), last + 1)
    decreases ps, 0
  {
    hide *;
    ListUnfold(mem, dfh, p, ps, 0, last);
    if ps.Null? {
      NoneBelow(mem, dfh, p, ps, last);
    } else {
      ParentsPrecedeUnder(mem, dfh, p, ps.sub, last);
    }
    if ps.Cons? {
      var next, n := NextParam(mem, p), NodesUnder(ps.sub);
      ParentsPrecedeIn(mem, dfh, next, ps.tail, last + n);
      BelowJoins(CollectedSub(mem, dfh, p, ps.sub, last), CollectedParams(mem, dfh, next, ps.tail, last + n), last + 1);
    }
  }

  lemma NoneBelow(mem: Memory, dfh: Address, p: Address, ps: Params, last: nat)
    requires UnfoldsParams(mem, dfh, p, ps) && ps.Null?
    ensures ParentsBelow(CollectedParams(mem, dfh, p, ps, last), last + 1)
  {
  }

  lemma {:induction false} ParentsPrecedeUnder(mem: Memory, dfh: Address, p: Address, s: Sub, last: nat)
    requires UnfoldsSub(mem, dfh, p, s)
    ensures ParentsBelow(CollectedSub(mem, dfh, p, s, last), last + 1)
    decreases s
  {
    if s.Branch? {
      ParentsPrecede(mem, SubAddress(mem, dfh, p), s.level, last + 1, last);
    }
  }

  /** The unfolding is a function of the memory: a walk that ends ends in one way. */
  lemma {:induction false} OneUnfolding(mem: Memory, dfh: Address, t: Level, u: Level)
    requires Unfolds(mem, dfh, t) && Unfolds(mem, dfh, u)
    ensures t == u
    decreases t
  {
    if HasParams(Read64(mem, dfh, 0x20)) {
      OneUnfoldingIn(mem, dfh, FirstParam(dfh), t.params, u.params);
    }
    if t.Link? {
      OneUnfolding(mem, NextDfh(mem, dfh), t.rest, u.rest);
    }
  }

  lemma {:induction false} OneUnfoldingIn(mem: Memory, dfh: Address, p: Address, ps: Params, qs: Params)
    requires UnfoldsParams(mem, dfh, p, ps) && UnfoldsParams(mem, dfh, p, qs)
    ensures ps == qs
    decreases ps
  {
    if ps.Last? || ps.Cons? {
      if ps.sub.Branch? {
        OneUnfolding(mem, SubAddress(mem, dfh, p), ps.sub.level, qs.sub.level);
      }
      if ps.Cons? {
        OneUnfoldingIn(mem, dfh, NextParam(mem, p), ps.tail, qs.tail);
      }
    }
  }
}
