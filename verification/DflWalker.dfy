/**
 The interface vector and the two-pass feature-list walker that fills it.
 */
module DflWalker {
  import opened DflFormat
  import opened DflTree

  /** The growable table of interfaces: `size` entries in use out of `reserved`. */
  class InfoVec {
    var data: array<Info>
    var size: nat
    var reserved: nat

    /** Reserved entries beyond the size are always zeroed. */
    ghost predicate Valid()
      reads this, data
    {
      && size <= reserved == data.Length
      && forall i :: size <= i < reserved ==> data[i] == ZERO_INFO
    }

    constructor ()
      ensures Valid() && size == 0 && fresh(data)
    {
      data := new Info[0];
      size, reserved := 0, 0;
    }

    /** Move to a larger table, zeroed past the old one. */
    method Grow(n: nat)
      requires Valid() && n > reserved
      modifies this`data, this`reserved
      ensures Valid() && reserved == n && fresh(data)
      ensures data[..size] == old(data[..size])
    {
      var larger := new Info[n](_ => ZERO_INFO);
      for i := 0 to reserved
        modifies larger
        invariant forall j :: 0 <= j < n ==> larger[j] == if j < i then data[j] else ZERO_INFO
      {
        larger[i] := data[i];
      }
      data, reserved := larger, n;
    }

    /** Zero the entries from n on. */
    method Drop(n: nat)
      requires Valid() && n < size
      modifies this`size, data
      ensures Valid() && size == n && data[..n] == old(data[..n])
    {
      for i := n to size
        modifies data
        invariant forall j :: 0 <= j < data.Length ==> data[j] == if n <= j < i then ZERO_INFO else old(data[j])
      {
        data[i] := ZERO_INFO;
      }
      size := n;
    }

    /** Make room for n entries, or drop the entries from n on; n == 0 frees everything. */
    method Reserve(n: nat)
      requires Valid()
      modifies this, data
      ensures Valid() && n <= reserved && (data == old(data) || fresh(data))
      ensures size == if n < old(size) then n else old(size)
      ensures data[..size] == old(data[..size])[..size]
    {
      if n > reserved {
        Grow(n);
      } else {
        if n < size {
          Drop(n);
        }
        if n == 0 {
          data := new Info[0];
          reserved, size := 0, 0;
        }
      }
    }

    /** Vector resize: the first entries survive, new ones are zero. */
    method Resize(n: nat)
      requires Valid()
      modifies this, data
      ensures Valid() && size == n && (data == old(data) || fresh(data))
      ensures n <= old(size) ==> data[..size] == old(data[..size])[..n]
      ensures n >= old(size) ==> data[..size] == old(data[..size]) + seq(n - old(size), _ => ZERO_INFO)
    {
      Reserve(n);
      size := n;
    }
  }

  // Sizes that bound the recursion.

  function Size(t: Level): nat {
    1 + SizeIn(t.params) + if t.Link? then Size(t.rest) else 0
  }

  function SizeIn(ps: Params): nat {
    match ps
    case Last(s) => 1 + SizeUnder(s)
    case Cons(s, tail) => 1 + SizeUnder(s) + SizeIn(tail)
    case _ => 0
  }

  function SizeUnder(s: Sub): nat {
    if s.Branch? then Size(s.level) else 0
  }

  /** A step of the walk over a list. */
  lemma {:induction false} ListStep(mem: Memory, dfh: Address, p: Address, ps: Params)
    requires UnfoldsParams(mem, dfh, p, ps) && !IsNullParam(mem(p))
    ensures ps.Last? || ps.Cons?
    ensures ps.Last? <==> IsLastParam(mem(p))
    ensures UnfoldsSub(mem, dfh, p, ps.sub) && (ps.sub.Branch? <==> ParamId(mem(p)) == BRANCH_ID)
    ensures ps.Cons? ==> UnfoldsParams(mem, dfh, NextParam(mem, p), ps.tail)
    ensures NodesUnder(ps.sub) + (if ps.Cons? then NodesIn(ps.tail) else 0) == NodesIn(ps)
    ensures ps.sub.Plain? ==> NodesUnder(ps.sub) == 0
    ensures SizeUnder(ps.sub) < SizeIn(ps) && (ps.Cons? ==> SizeIn(ps.tail) < SizeIn(ps))
  {
  }

  lemma {:induction false} ListEnd(mem: Memory, dfh: Address, p: Address, ps: Params)
    requires UnfoldsParams(mem, dfh, p, ps)
    ensures IsNullParam(mem(p)) ==> ps == Null && NodesIn(ps) == 0
  {
  }

  /** What a level consists of. */
  lemma {:induction false} LevelStep(mem: Memory, dfh: Address, t: Level)
    requires Unfolds(mem, dfh, t)
    ensures UnfoldsList(mem, dfh, t.params)
    ensures t.Final? <==> IsEol(Read64(mem, dfh, 0))
    ensures Nodes(t) == 1 + NodesIn(t.params) + NodesAfter(t)
    ensures t.Link? ==> Unfolds(mem, NextDfh(mem, dfh), t.rest)
    ensures SizeIn(t.params) < Size(t) && (t.Link? ==> Size(t.rest) < Size(t))
  {
  }

  function NodesAfter(t: Level): nat {
    if t.Link? then Nodes(t.rest) else 0
  }

  /** The entries of a level after those of its first DFH. */
  ghost function CollectedAfter(mem: Memory, dfh: Address, t: Level, k: nat, parent: int): (infos: seq<Info>)
    requires Unfolds(mem, dfh, t)
    ensures |infos| == NodesAfter(t)
  {
    if t.Final? then [] else Collected(mem, NextDfh(mem, dfh), t.rest, k, parent)
  }

  lemma {:induction false} LevelParts(mem: Memory, dfh: Address, t: Level, k: nat, parent: int)
    requires Unfolds(mem, dfh, t)
    ensures Collected(mem, dfh, t, k, parent) ==
      CollectedDfh(mem, dfh, t.params, k, parent) + CollectedAfter(mem, dfh, t, k + 1 + NodesIn(t.params), parent)
  {
    hide NextDfh, CollectedDfh, UnfoldsList, IsEol, Read64, NodesIn;
  }

  lemma {:induction false} ListJoins(mem: Memory, dfh: Address, p: Address, ps: Params, last: nat)
    requires UnfoldsParams(mem, dfh, p, ps)
    ensures ps.Null? ==> CollectedParams(mem, dfh, p, ps, last) == [] && NodesIn(ps) == 0
    ensures ps.Last? ==> CollectedParams(mem, dfh, p, ps, last) == CollectedSub(mem, dfh, p, ps.sub, last)
    ensures ps.Cons? ==>
      CollectedParams(mem, dfh, p, ps, last) == CollectedSub(mem, dfh, p, ps.sub, last)
      + CollectedParams(mem, dfh, NextParam(mem, p), ps.tail, last + NodesUnder(ps.sub))
    ensures ps.Last? || ps.Cons? ==> NodesUnder(ps.sub) <= NodesIn(ps)
    ensures (ps.Last? || ps.Cons?) && ps.sub.Plain? ==> CollectedSub(mem, dfh, p, ps.sub, last) == []
  {
    hide NextParam, NextParamOffset, IsLastParam, ParamId, SubAddress, Collected, Unfolds, Nodes;
  }

  /** One step of a list: which block it is, and what it contributes. */
  lemma {:induction false} BlocksUnfold(mem: Memory, dfh: Address, p: Address, ps: Params)
    requires UnfoldsParams(mem, dfh, p, ps)
    ensures !ps.Absent?
    ensures ps.Null? <==> IsNullParam(mem(p))
    ensures ps.Null? ==> Blocks(mem, dfh, p, ps) == [ZERO_PARAM]
    ensures ps.Last? ==> IsLastParam(mem(p)) && Blocks(mem, dfh, p, ps) == [ParamAt(mem, p)]
    ensures ps.Cons? ==> !IsLastParam(mem(p)) && NextParamOffset(mem(p)) > 0
    ensures ps.Cons? ==> UnfoldsParams(mem, dfh, NextParam(mem, p), ps.tail)
    ensures ps.Cons? ==> Blocks(mem, dfh, p, ps) == [ParamAt(mem, p)] + Blocks(mem, dfh, NextParam(mem, p), ps.tail)
  {
    if ps.Cons? {
      MovesOn(mem, dfh, p, ps);
    }
  }

  lemma Assoc(a: seq<Info>, b: seq<Info>, c: seq<Info>)
    ensures a + b + c == a + (b + c)
  {
  }

  class Walker {
    const mem: Memory
    const vec: InfoVec
    var scannedCount: int
    var index: int
    var parents: seq<int>
    ghost var recorded: seq<Info>  // the entries the collecting pass has filled in so far

    constructor (mem: Memory)
      ensures vec.Valid() && this.mem == mem && fresh(vec) && fresh(vec.data)
      ensures parents == [] && vec.size == 0
    {
      this.mem := mem;
      vec := new InfoVec();
      scannedCount, index, parents := 0, 0, [];
      recorded := [];
    }

    /** Replace the parameter array of one entry. */
    method SetParams(i: nat, params: seq<Param>)
      requires i < vec.data.Length
      modifies vec.data
      ensures vec.data[..] == old(vec.data[..])[i := old(vec.data[i]).(params := params)]
    {
      vec.data[i] := vec.data[i].(params := params);
    }

    /** Fill in one block, allocating the array for the first. */
    method StoreBlock(i: nat, block: nat, current: Param, ghost done: seq<Param>)
      requires i < vec.data.Length && block == |done|
      requires vec.data[i].params == if block == 0 then [] else done + [ZERO_PARAM]
      modifies vec.data
      ensures vec.data[..] == old(vec.data[..])[i := old(vec.data[i]).(params := done + [current])]
    {
      if block == 0 {
        SetParams(i, [ZERO_PARAM]);
      }
      SetParams(i, vec.data[i].params[block := current]);
      assert vec.data[i].params == done + [current];
    }

    lemma Regroup(a: seq<Param>, b: Param, c: seq<Param>)
      ensures a + ([b] + c) == a + [b] + c
    {
    }

    /** Copy the blocks of a DFH's list into its entry. */
    method SetParameterProperties(i: nat, dfh: Address, ghost ps: Params)
      requires i < vec.data.Length && UnfoldsList(mem, dfh, ps)
      requires vec.data[i].params == []
      modifies vec.data
      ensures vec.data[..] == old(vec.data[..])[i := old(vec.data[i]).(params := ParamsAt(mem, dfh, ps))]
    {
      hide Blocks, UnfoldsParams, NextParam, ParamAt, HasParams, Read64;
      if HasParams(Read64(mem, dfh, 0x20)) {
        var p := FirstParam(dfh);
        var header := mem(p);
        ghost var rest := ps;
        var block := 0;
        ghost var done: seq<Param> := [];
        BlocksUnfold(mem, dfh, p, ps);
        while !IsLastParam(header) || NextParamOffset(header) > 0
          invariant header == mem(p) && UnfoldsParams(mem, dfh, p, rest)
          invariant block == |done| && done + Blocks(mem, dfh, p, rest) == Blocks(mem, dfh, FirstParam(dfh), ps)
          invariant block == 0 ==> rest == ps && p == FirstParam(dfh)
          invariant |vec.data[..]| == |old(vec.data[..])|
          invariant vec.data[..] == old(vec.data[..])[i := old(vec.data[i]).(params :=
            if block == 0 then [] else done + [ZERO_PARAM])]
          decreases rest
        {
          BlocksUnfold(mem, dfh, p, rest);
          var current := ParamAt(mem, p);
          StoreBlock(i, block, current, done);
          if IsLastParam(header) {
            break;
          }
          p := NextParam(mem, p);
          header := mem(p);
          Regroup(done, current, Blocks(mem, dfh, p, rest.tail));
          rest, done := rest.tail, done + [current];
          block := block + 1;
          SetParams(i, vec.data[i].params + [ZERO_PARAM]);
        }
        BlocksUnfold(mem, dfh, p, rest);
      }
    }

    /** Fill in the entry of one DFH; its parent is whatever the stack's top says. */
    method SetInterfaceProperties(i: nat, dfh: Address, ghost ps: Params)
      requires i < vec.data.Length && UnfoldsList(mem, dfh, ps) && parents != []
      requires vec.data[i] == ZERO_INFO
      modifies vec.data
      ensures vec.data[..] == old(vec.data[..])[i := InfoAt(mem, dfh, ps, parents[|parents| - 1])]
    {
      var group := Read64(mem, dfh, 0x20);
      vec.data[i] := vec.data[i].(base := BaseAddress(Read64(mem, dfh, 0x18), dfh));
      vec.data[i] := vec.data[i].(guidH := Read64(mem, dfh, 0x10), guidL := Read64(mem, dfh, 0x08));
      vec.data[i] := vec.data[i].(instance := InstanceId(group));
      vec.data[i] := vec.data[i].(group := GroupId(group));
      vec.data[i] := vec.data[i].(parent := parents[|parents| - 1]);
      vec.data[i] := vec.data[i].(mmioOpened := false, interruptOpened := false);
      SetParameterProperties(i, dfh, ps);
    }

    /** The collecting pass: the entries so far, room for n more, and zeros past them. */
    ghost predicate Collecting(n: nat)
      reads this`index, this`recorded, vec`data, vec`size, vec.data
    {
      && |recorded| == index + 1 && index + 1 + n <= vec.size <= vec.data.Length
      && vec.data[..index + 1] == recorded
      && forall i :: index < i < vec.data.Length ==> vec.data[i] == ZERO_INFO
    }

    ghost function Top(): int
      requires parents != []
      reads this`parents
    {
      parents[|parents| - 1]
    }

    /** The counting pass has gone past n more DFHs, and touched nothing else. */
    twostate predicate Counted(n: nat)
      reads this`scannedCount, this`index, vec`data, vec.data
    {
      scannedCount == old(scannedCount) + n && index == old(index) && vec.data[..] == old(vec.data[..])
    }

    /** Count, or record, the DFH at hand. */
    method Visit(dfh: Address, collect: bool, ghost ps: Params, ghost after: nat)
      requires UnfoldsList(mem, dfh, ps) && parents != []
      requires collect ==> Collecting(1 + after)
      modifies this`scannedCount, this`index, this`recorded, vec.data
      ensures !collect ==> Counted(1)
      ensures collect ==> scannedCount == old(scannedCount) && Collecting(after)
      ensures collect ==> recorded == old(recorded) + [InfoAt(mem, dfh, ps, Top())]
    {
      if !collect {
        scannedCount := scannedCount + 1;
      } else {
        index := index + 1;
        SetInterfaceProperties(index, dfh, ps);
        hide UnfoldsList, InfoAt;
        assert forall i :: index < i < vec.data.Length ==> vec.data[i] == vec.data[..][i] == old(vec.data[..])[i];
        recorded := recorded + [InfoAt(mem, dfh, ps, Top())];
        assert vec.data[..index + 1] == vec.data[..][..index + 1];
      }
    }

    /** Follow a branch block: its sub-list is labelled with the index recorded last. */
    method HandleBranch(dfh: Address, p: Address, collect: bool, ghost s: Sub, ghost after: nat)
      requires UnfoldsSub(mem, dfh, p, s) && s.Branch?
      requires collect ==> 0 <= index && Collecting(NodesUnder(s) + after)
      modifies this`scannedCount, this`index, this`recorded, this`parents, vec.data
      ensures parents == old(parents)
      ensures !collect ==> Counted(NodesUnder(s))
      ensures collect ==> scannedCount == old(scannedCount) && Collecting(after)
      ensures collect ==> index == old(index) + NodesUnder(s)
      ensures collect ==> recorded == old(recorded) + CollectedSub(mem, dfh, p, s, old(index))
      decreases SizeUnder(s), 3
    {
      hide Unfolds, Collected, SubAddress;
      parents := parents + [index];
      DealWithLevel(SubAddress(mem, dfh, p), collect, s.level, after);
      assert parents == old(parents);
    }

    /** Look at every block of a list for one that branches. */
    method ProcessParams(dfh: Address, first: Address, collect: bool, ghost ps: Params, ghost after: nat)
      requires UnfoldsParams(mem, dfh, first, ps)
      requires collect ==> 0 <= index && Collecting(NodesIn(ps) + after)
      modifies this`scannedCount, this`index, this`recorded, this`parents, vec.data
      ensures parents == old(parents)
      ensures !collect ==> Counted(NodesIn(ps))
      ensures collect ==> scannedCount == old(scannedCount) && Collecting(after)
      ensures collect ==> recorded == old(recorded) + CollectedParams(mem, dfh, first, ps, old(index))
      decreases SizeIn(ps), 0
    {
      hide UnfoldsParams, UnfoldsSub, CollectedSub, CollectedParams, Collecting, NodesUnder, NodesIn,
           NextParam, ParamId, IsLastParam, NextParamOffset, SizeIn, SizeUnder;
      var p, header := first, mem(first);
      ghost var rest := ps;
      ghost var was := recorded;
      ghost var all := if collect then was + CollectedParams(mem, dfh, first, ps, index) else [];
      while !IsLastParam(header) || NextParamOffset(header) > 0
        invariant header == mem(p) && UnfoldsParams(mem, dfh, p, rest)
        invariant SizeIn(rest) <= SizeIn(ps) && parents == old(parents)
        invariant !collect ==> scannedCount + NodesIn(rest) == old(scannedCount) + NodesIn(ps)
        invariant !collect ==> index == old(index) && vec.data[..] == old(vec.data[..])
        invariant collect ==> scannedCount == old(scannedCount) && 0 <= index && Collecting(NodesIn(rest) + after)
        invariant collect ==> recorded + CollectedParams(mem, dfh, p, rest, index) == all
        decreases rest
      {
        ListStep(mem, dfh, p, rest);
        if collect {
          ListJoins(mem, dfh, p, rest, index);
        }
        if collect && rest.Cons? {
          Assoc(recorded, CollectedSub(mem, dfh, p, rest.sub, index),
                CollectedParams(mem, dfh, NextParam(mem, p), rest.tail, index + NodesUnder(rest.sub)));
        }
        if ParamId(header) == BRANCH_ID {
          HandleBranch(dfh, p, collect, rest.sub, NodesIn(rest) - NodesUnder(rest.sub) + after);
        }
        if IsLastParam(header) {
          return;
        }
        p := NextParam(mem, p);
        header := mem(p);
        rest := rest.tail;
      }
      ListEnd(mem, dfh, p, rest);
      if collect {
        ListJoins(mem, dfh, p, rest, index);
      }
    }

    /** One DFH and everything under it. */
    method DealWithDfh(dfh: Address, collect: bool, ghost ps: Params, ghost after: nat)
      requires UnfoldsList(mem, dfh, ps) && parents != []
      requires collect ==> Collecting(1 + NodesIn(ps) + after)
      modifies this`scannedCount, this`index, this`recorded, this`parents, vec.data
      ensures parents == old(parents)
      ensures !collect ==> Counted(1 + NodesIn(ps))
      ensures collect ==> scannedCount == old(scannedCount) && Collecting(after)
      ensures collect ==> recorded == old(recorded) + CollectedDfh(mem, dfh, ps, old(index) + 1, old(Top()))
      decreases SizeIn(ps), 1
    {
      hide UnfoldsParams, InfoAt, FirstParam, CollectedParams;
      Visit(dfh, collect, ps, NodesIn(ps) + after);
      if HasParams(Read64(mem, dfh, 0x20)) {
        ProcessParams(dfh, FirstParam(dfh), collect, ps, after);
        if collect {
          Assoc(old(recorded), [InfoAt(mem, dfh, ps, Top())],
                CollectedParams(mem, dfh, FirstParam(dfh), ps, old(index) + 1));
        }
      }
    }

    /** A whole level, and the pop that ends it. */
    method DealWithLevel(dfh: Address, collect: bool, ghost t: Level, ghost after: nat)
      requires Unfolds(mem, dfh, t) && parents != []
      requires collect ==> Collecting(Nodes(t) + after)
      modifies this`scannedCount, this`index, this`recorded, this`parents, vec.data
      ensures parents == old(parents)[..|old(parents)| - 1]
      ensures !collect ==> Counted(Nodes(t))
      ensures collect ==> scannedCount == old(scannedCount) && Collecting(after)
      ensures collect ==> recorded == old(recorded) + Collected(mem, dfh, t, old(index) + 1, old(Top()))
      decreases Size(t), 2
    {
      hide Unfolds, UnfoldsList, Collected, CollectedDfh, CollectedAfter, Nodes, NodesIn, NodesAfter, Size, SizeIn;
      LevelStep(mem, dfh, t);
      ghost var k, top := index + 1, Top();
      DealWithDfh(dfh, collect, t.params, NodesAfter(t) + after);
      NextOrPop(dfh, collect, t, after);
      if collect {
        LevelParts(mem, dfh, t, k, top);
        Assoc(old(recorded), CollectedDfh(mem, dfh, t.params, k, top),
              CollectedAfter(mem, dfh, t, k + 1 + NodesIn(t.params), top));
      }
    }

    /** The end of a DFH: on to the next of the level, or pop the level's label. */
    method NextOrPop(dfh: Address, collect: bool, ghost t: Level, ghost after: nat)
      requires Unfolds(mem, dfh, t) && parents != []
      requires collect ==> Collecting(NodesAfter(t) + after)
      modifies this`scannedCount, this`index, this`recorded, this`parents, vec.data
      ensures parents == old(parents)[..|old(parents)| - 1]
      ensures !collect ==> Counted(NodesAfter(t))
      ensures collect ==> scannedCount == old(scannedCount) && Collecting(after)
      ensures collect ==> recorded == old(recorded) + CollectedAfter(mem, dfh, t, old(index) + 1, old(Top()))
      decreases Size(t), 1
    {
      hide UnfoldsList, Collected, NextDfh, IsEol, Read64, Nodes;
      if !IsEol(Read64(mem, dfh, 0)) {
        DealWithLevel(NextDfh(mem, dfh), collect, t.rest, after);
      } else {
        parents := parents[..|parents| - 1];
      }
    }

    /** The counting pass. */
    method ScanTheNumInterfaces(first: Address, ghost t: Level)
      requires vec.Valid() && Unfolds(mem, first, t) && scannedCount == 0
      modifies this`scannedCount, this`index, this`recorded, this`parents, vec.data
      ensures vec.Valid() && parents == old(parents) && scannedCount == Nodes(t)
    {
      hide Unfolds, Collected;
      parents := parents + [-1];
      DealWithLevel(first, false, t, 0);
      assert parents == old(parents);
      assert forall i :: 0 <= i < vec.data.Length ==> vec.data[i] == vec.data[..][i];
    }

    /** The collecting pass, into a table of just the right size. */
    method CollectInterfacesInfo(first: Address, ghost t: Level)
      requires vec.Valid() && Unfolds(mem, first, t) && index == -1
      requires vec.size == Nodes(t) && vec.data[..vec.size] == seq(vec.size, _ => ZERO_INFO)
      modifies this`scannedCount, this`index, this`recorded, this`parents, vec, vec.data
      ensures vec.Valid() && parents == old(parents) && vec.size == old(vec.size)
      ensures scannedCount == old(scannedCount) && index == Nodes(t) - 1
      ensures vec.data[..vec.size] == Collected(mem, first, t, 0, -1)
    {
      hide Unfolds, Collected;
      parents := parents + [-1];
      vec.Resize(vec.size);
      assert forall i :: 0 <= i < vec.size ==> vec.data[i] == vec.data[..vec.size][i];
      recorded := [];
      DealWithLevel(first, true, t, 0);
      assert parents == old(parents);
      assert |recorded| == Nodes(t);
    }

    /**
     Both passes, over any memory on which the walk ends: the counting pass sizes the
     table exactly, the collecting pass fills it from 0, and the stack ends as it began.
     */
    method ScanMultiInterfaces(first: Address, ghost t: Level)
      requires vec.Valid() && Unfolds(mem, first, t)
      modifies this, vec, vec.data
      ensures vec.Valid() && parents == old(parents)
      ensures scannedCount == Nodes(t) == vec.size && index + 1 == scannedCount
      ensures vec.data[..vec.size] == Collected(mem, first, t, 0, -1)
    {
      hide Unfolds, Collected;
      scannedCount := 0;
      vec.Resize(scannedCount);
      ScanTheNumInterfaces(first, t);
      vec.Resize(scannedCount);
      index := -1;
      CollectInterfacesInfo(first, t);
    }
  }
}
