/**
 The inverse of the walk: what it means that a memory encodes a forest of features,
 and that walking such a memory gives the forest back.  The features may lie anywhere:
 next offsets, and relative or absolute branch targets, are part of the forest.
 */
module DflForest {
  import opened DflFormat
  import opened DflTree
  import opened DflWalker

  const POW61: nat := 0x2000_0000_0000_0000

  type Eighth = x: int | 0 <= x < POW61

  type TwoBits = x: int | 0 <= x < 4

  /** A list of sibling features; `next` is the byte offset from one to the next. */
  datatype Features =
    | One(f: Feature)
    | More(f: Feature, next: nat, rest: Features)

  datatype Feature = Feature(csr: Csr, guidH: Word, guidL: Word, instance: nat, group: nat, list: List)

  /** A parameter list: none, or blocks ended by a null block or by a last block. */
  datatype List =
    | NoList
    | NullEnd
    | LastBlock(b: Block)
    | Then(b: Block, tail: List)

  /** A block of data words, or one that also branches to a list of child features. */
  datatype Block =
    | Data(version: nat, words: seq<Word>, id: nat)
    | Children(version: nat, words: seq<Word>, target: Target, kids: Features)

  /** Where the children are, in units of eight bytes: after their DFH (modulo the address space) or from 0. */
  datatype Target = Target(absolute: bool, words: Eighth, unused: TwoBits)

  function TargetAddress(t: Target, dfh: Address): Address {
    Ptr((if t.absolute then 0 else dfh) + 8 * t.words)
  }

  /** The word that says so; every word is one of these. */
  function BranchWord(t: Target): Word {
    8 * t.words + 2 * t.unused + if t.absolute then 1 else 0
  }

  /** The walker finds the children where the branch word says they are. */
  lemma BranchDecodes(t: Target, dfh: Address)
    ensures BranchTarget(BranchWord(t), dfh) == TargetAddress(t, dfh)
  {
    hide Ptr;
    LowBits(t.words, t.unused, if t.absolute then 1 else 0);
  }

  lemma LowBits(q: nat, bits: nat, flag: nat)
    requires bits < 4 && flag <= 1
    ensures (8 * q + 2 * bits + flag) % 8 == 2 * bits + flag && (8 * q + 2 * bits + flag) % 2 == flag
  {
    LowThree(q, 2 * bits + flag);
    Lowest(4 * q + bits, flag);
  }

  lemma LowThree(q: nat, low: nat)
    requires low < 8
    ensures (8 * q + low) % 8 == low
  {
  }

  function BlockId(b: Block): nat {
    if b.Data? then b.id else BRANCH_ID
  }

  // ---------- a memory that encodes a forest ----------

  // Only what the walk reads is fixed; all other bits of the words are free.

  ghost predicate Encodes(mem: Memory, dfh: Address, fs: Features)
    decreases fs
  {
    && IsEol(Read64(mem, dfh, 0)) == fs.One?
    && EncodesFeature(mem, dfh, fs.f)
    && (fs.More? ==> NextDfhOffset(Read64(mem, dfh, 0)) == fs.next && Encodes(mem, Ptr(dfh + fs.next), fs.rest))
  }

  ghost predicate EncodesFeature(mem: Memory, dfh: Address, f: Feature)
    decreases f
  {
    && EncodesWords(mem, dfh, f)
    && (f.list.NoList? || EncodesList(mem, dfh, FirstParam(dfh), f.list))
  }

  predicate EncodesWords(mem: Memory, dfh: Address, f: Feature) {
    && Read64(mem, dfh, 0x08) == f.guidL
    && Read64(mem, dfh, 0x10) == f.guidH
    && Read64(mem, dfh, 0x18) == CsrWord(f.csr)
    && HasParams(Read64(mem, dfh, 0x20)) == !f.list.NoList?
    && InstanceId(Read64(mem, dfh, 0x20)) == f.instance
    && GroupId(Read64(mem, dfh, 0x20)) == f.group
  }

  ghost predicate EncodesList(mem: Memory, dfh: Address, p: Address, l: List)
    decreases l
  {
    match l
    case NoList => false
    case NullEnd => IsNullParam(mem(p))
    case LastBlock(b) => EncodesBlock(mem, dfh, p, b, true)
    case Then(b, tail) =>
      EncodesBlock(mem, dfh, p, b, false) && EncodesList(mem, dfh, After(p, b), tail)
  }

  function After(p: Address, b: Block): Address {
    Ptr(p + 8 * (1 + |b.words|))
  }

  /**
   The offset field of a header counts the data, and the header too unless the block is
   the last; a last block without data would be the null block.
   */
  predicate EncodesHeader(header: Word, b: Block, last: bool) {
    && ParamVersion(header) == b.version && ParamId(header) == BlockId(b)
    && IsLastParam(header) == last && NextParamOffset(header) == 8 * (|b.words| + if last then 0 else 1)
    && (last ==> b.words != []) && (b.Data? ==> b.id != BRANCH_ID)
  }

  ghost predicate EncodesBlock(mem: Memory, dfh: Address, p: Address, b: Block, last: bool)
    decreases b
  {
    && EncodesHeader(mem(p), b, last)
    && DataAt(mem, p, |b.words|) == b.words
    && (b.Children? ==>
          && Read64(mem, p, HEADER_BYTES) == BranchWord(b.target)
          && Encodes(mem, TargetAddress(b.target, dfh), b.kids))
  }

  // ---------- what walking it should give ----------

  function Tree(fs: Features): Level {
    match fs
    case One(f) => Final(TreeList(f.list))
    case More(f, _, rest) => Link(TreeList(f.list), Tree(rest))
  }

  function TreeList(l: List): Params {
    match l
    case NoList => Absent
    case NullEnd => Null
    case LastBlock(b) => Last(TreeBlock(b))
    case Then(b, tail) => Cons(TreeBlock(b), TreeList(tail))
  }

  function TreeBlock(b: Block): Sub {
    if b.Data? then Plain else Branch(Tree(b.kids))
  }

  /** The entries of the forest in preorder, its first feature at dfh, numbered from k. */
  function Expected(fs: Features, dfh: Address, k: nat, parent: int): seq<Info> {
    var own := ExpectedFeature(fs.f, dfh, k, parent);
    if fs.One? then own
    else own + Expected(fs.rest, Ptr(dfh + fs.next), k + |own|, parent)
  }

  /** One feature and everything under it. */
  function ExpectedFeature(f: Feature, dfh: Address, k: nat, parent: int): seq<Info> {
    [ExpectedInfo(f, dfh, parent)] + ExpectedIn(f.list, dfh, k, k + 1)
  }

  function ExpectedInfo(f: Feature, dfh: Address, parent: int): Info {
    Info(CsrAddress(f.csr, dfh), f.guidH, f.guidL, f.instance, f.group, parent, false, false,
         if f.list.NoList? || f.list.NullEnd? then [] else ExpectedParams(f.list))
  }

  function ExpectedParams(l: List): seq<Param> {
    match l
    case NoList => []
    case NullEnd => [ZERO_PARAM]
    case LastBlock(b) => [ExpectedParam(b)]
    case Then(b, tail) => [ExpectedParam(b)] + ExpectedParams(tail)
  }

  function ExpectedParam(b: Block): Param {
    Param(b.version, BlockId(b), b.words)
  }

  function ExpectedIn(l: List, dfh: Address, self: nat, k: nat): seq<Info> {
    match l
    case LastBlock(b) => ExpectedUnder(b, dfh, self, k)
    case Then(b, tail) =>
      var sub := ExpectedUnder(b, dfh, self, k);
      sub + ExpectedIn(tail, dfh, self, k + |sub|)
    case _ => []
  }

  function ExpectedUnder(b: Block, dfh: Address, self: nat, k: nat): seq<Info> {
    if b.Data? then [] else Expected(b.kids, TargetAddress(b.target, dfh), k, self)
  }

  // ---------- walking it gives that ----------

  /** Walking an encoded forest ends, unfolds to the forest's shape and flattens to its entries. */
  lemma {:induction false} EncodingWalks(mem: Memory, dfh: Address, fs: Features, k: nat, parent: int)
    requires Encodes(mem, dfh, fs)
    ensures Unfolds(mem, dfh, Tree(fs))
    ensures Flattened(mem, dfh, Tree(fs), k, parent) == Expected(fs, dfh, k, parent)
    decreases fs
  {
    hide *;
    FeaturesParts(mem, dfh, fs);
    FeatureWalks(mem, dfh, fs.f, k, parent);
    if fs.More? {
      var own := ExpectedFeature(fs.f, dfh, k, parent);
      EncodingWalks(mem, Ptr(dfh + fs.next), fs.rest, k + |own|, parent);
    }
    FeaturesJoin(mem, dfh, fs, k, parent);
  }

  lemma FeaturesParts(mem: Memory, dfh: Address, fs: Features)
    requires Encodes(mem, dfh, fs)
    ensures EncodesFeature(mem, dfh, fs.f)
    ensures IsEol(Read64(mem, dfh, 0)) == fs.One?
    ensures fs.More? ==>
      && NextDfh(mem, dfh) == Ptr(dfh + fs.next)
      && Encodes(mem, Ptr(dfh + fs.next), fs.rest)
  {
    hide EncodesFeature, IsEol, NextDfhOffset, Ptr;
  }

  lemma FeaturesJoin(mem: Memory, dfh: Address, fs: Features, k: nat, parent: int)
    requires IsEol(Read64(mem, dfh, 0)) == fs.One?
    requires UnfoldsList(mem, dfh, TreeList(fs.f.list))
    requires FlattenedDfh(mem, dfh, TreeList(fs.f.list), k, parent) == ExpectedFeature(fs.f, dfh, k, parent)
    requires fs.More? ==>
      && NextDfh(mem, dfh) == Ptr(dfh + fs.next) && Unfolds(mem, Ptr(dfh + fs.next), Tree(fs.rest))
      && var at := k + |ExpectedFeature(fs.f, dfh, k, parent)|;
         Flattened(mem, Ptr(dfh + fs.next), Tree(fs.rest), at, parent)
         == Expected(fs.rest, Ptr(dfh + fs.next), at, parent)
    ensures Unfolds(mem, dfh, Tree(fs))
    ensures Flattened(mem, dfh, Tree(fs), k, parent) == Expected(fs, dfh, k, parent)
  {
    hide UnfoldsList, FlattenedDfh, ExpectedFeature, IsEol, NextDfh, Ptr, Read64, TreeList;
  }

  lemma {:induction false} FeatureWalks(mem: Memory, dfh: Address, f: Feature, k: nat, parent: int)
    requires EncodesFeature(mem, dfh, f)
    ensures UnfoldsList(mem, dfh, TreeList(f.list))
    ensures FlattenedDfh(mem, dfh, TreeList(f.list), k, parent) == ExpectedFeature(f, dfh, k, parent)
    decreases f
  {
    hide *;
    FeatureWords(mem, dfh, f);
    if !f.list.NoList? {
      ListWalks(mem, dfh, FirstParam(dfh), f.list, k, k + 1);
    }
    FeatureJoin(mem, dfh, f, k, parent);
  }

  lemma FeatureWords(mem: Memory, dfh: Address, f: Feature)
    requires EncodesFeature(mem, dfh, f)
    ensures EncodesWords(mem, dfh, f)
    ensures !f.list.NoList? ==> EncodesList(mem, dfh, FirstParam(dfh), f.list)
  {
    hide EncodesList, HasParams, InstanceId, GroupId, Read64, CsrWord;
  }

  lemma FeatureJoin(mem: Memory, dfh: Address, f: Feature, k: nat, parent: int)
    requires EncodesWords(mem, dfh, f)
    requires !f.list.NoList? ==>
      && UnfoldsParams(mem, dfh, FirstParam(dfh), TreeList(f.list))
      && FlattenedParams(mem, dfh, FirstParam(dfh), TreeList(f.list), k, k + 1) == ExpectedIn(f.list, dfh, k, k + 1)
      && Blocks(mem, dfh, FirstParam(dfh), TreeList(f.list)) == ExpectedParams(f.list)
    ensures UnfoldsList(mem, dfh, TreeList(f.list))
    ensures FlattenedDfh(mem, dfh, TreeList(f.list), k, parent) == ExpectedFeature(f, dfh, k, parent)
  {
    hide BaseAddress, CsrWord, CsrAddress, HasParams, InstanceId, GroupId, Read64, FirstParam,
         UnfoldsParams, FlattenedParams, Blocks, ExpectedParams;
    CsrDecodes(f.csr, dfh);
  }

  lemma {:induction false} ListWalks(mem: Memory, dfh: Address, p: Address, l: List, self: nat, k: nat)
    requires EncodesList(mem, dfh, p, l)
    ensures UnfoldsParams(mem, dfh, p, TreeList(l))
    ensures FlattenedParams(mem, dfh, p, TreeList(l), self, k) == ExpectedIn(l, dfh, self, k)
    ensures Blocks(mem, dfh, p, TreeList(l)) == ExpectedParams(l)
    decreases l
  {
    hide *;
    ListParts(mem, dfh, p, l);
    match l {
      case NoList =>
      case NullEnd =>
      case LastBlock(b) => BlockWalks(mem, dfh, p, b, true, self, k);
      case Then(b, tail) =>
        BlockWalks(mem, dfh, p, b, false, self, k);
        ListWalks(mem, dfh, After(p, b), tail, self, k + |ExpectedUnder(b, dfh, self, k)|);
    }
    ListJoin(mem, dfh, p, l, self, k);
  }

  lemma ListParts(mem: Memory, dfh: Address, p: Address, l: List)
    requires EncodesList(mem, dfh, p, l)
    ensures !l.NoList?
    ensures l.NullEnd? ==> IsLastParam(mem(p)) && NextParamOffset(mem(p)) == 0
    ensures l.LastBlock? ==> EncodesBlock(mem, dfh, p, l.b, true)
    ensures l.Then? ==> EncodesBlock(mem, dfh, p, l.b, false) && EncodesList(mem, dfh, After(p, l.b), l.tail)
  {
    hide EncodesBlock, After, IsLastParam, NextParamOffset;
  }

  lemma ListJoin(mem: Memory, dfh: Address, p: Address, l: List, self: nat, k: nat)
    requires !l.NoList?
    requires l.NullEnd? ==> IsLastParam(mem(p)) && NextParamOffset(mem(p)) == 0
    requires l.LastBlock? || l.Then? ==>
      && UnfoldsSub(mem, dfh, p, TreeBlock(l.b))
      && FlattenedSub(mem, dfh, p, TreeBlock(l.b), self, k) == ExpectedUnder(l.b, dfh, self, k)
      && IsLastParam(mem(p)) == l.LastBlock? && NextParamOffset(mem(p)) > 0
      && ParamAt(mem, p) == ExpectedParam(l.b)
    requires l.Then? ==>
      && NextParam(mem, p) == After(p, l.b)
      && UnfoldsParams(mem, dfh, After(p, l.b), TreeList(l.tail))
      && Blocks(mem, dfh, After(p, l.b), TreeList(l.tail)) == ExpectedParams(l.tail)
      && var at := k + |ExpectedUnder(l.b, dfh, self, k)|;
         FlattenedParams(mem, dfh, After(p, l.b), TreeList(l.tail), self, at) == ExpectedIn(l.tail, dfh, self, at)
    ensures UnfoldsParams(mem, dfh, p, TreeList(l))
    ensures FlattenedParams(mem, dfh, p, TreeList(l), self, k) == ExpectedIn(l, dfh, self, k)
    ensures Blocks(mem, dfh, p, TreeList(l)) == ExpectedParams(l)
  {
    hide IsLastParam, NextParamOffset, UnfoldsSub, FlattenedSub, ExpectedUnder, ParamAt, ExpectedParam,
         NextParam, After, TreeBlock;
  }

  lemma {:induction false} BlockWalks(
      mem: Memory, dfh: Address, p: Address, b: Block, last: bool, self: nat, k: nat)
    requires EncodesBlock(mem, dfh, p, b, last)
    ensures UnfoldsSub(mem, dfh, p, TreeBlock(b))
    ensures FlattenedSub(mem, dfh, p, TreeBlock(b), self, k) == ExpectedUnder(b, dfh, self, k)
    ensures IsLastParam(mem(p)) == last && NextParamOffset(mem(p)) > 0
    ensures ParamAt(mem, p) == ExpectedParam(b)
    ensures !last ==> NextParam(mem, p) == After(p, b)
    decreases b
  {
    hide *;
    BlockFields(mem, dfh, p, b, last);
    if b.Children? {
      ChildrenParts(mem, dfh, p, b, last);
      EncodingWalks(mem, TargetAddress(b.target, dfh), b.kids, k, self);
    }
    BlockJoin(mem, dfh, p, b, self, k);
  }

  lemma BlockFields(mem: Memory, dfh: Address, p: Address, b: Block, last: bool)
    requires EncodesBlock(mem, dfh, p, b, last)
    ensures ParamId(mem(p)) == BRANCH_ID <==> b.Children?
    ensures IsLastParam(mem(p)) == last && NextParamOffset(mem(p)) > 0
    ensures ParamAt(mem, p) == ExpectedParam(b)
    ensures !last ==> NextParam(mem, p) == After(p, b)
  {
    hide ParamVersion, ParamId, IsLastParam, NextParamOffset, Encodes, DataAt, Ptr;
  }

  lemma ChildrenParts(mem: Memory, dfh: Address, p: Address, b: Block, last: bool)
    requires EncodesBlock(mem, dfh, p, b, last) && b.Children?
    ensures Encodes(mem, TargetAddress(b.target, dfh), b.kids)
    ensures SubAddress(mem, dfh, p) == TargetAddress(b.target, dfh)
  {
    hide EncodesHeader, Encodes, Ptr, TargetAddress, BranchWord, BranchTarget;
    BranchDecodes(b.target, dfh);
  }

  lemma BlockJoin(mem: Memory, dfh: Address, p: Address, b: Block, self: nat, k: nat)
    requires ParamId(mem(p)) == BRANCH_ID <==> b.Children?
    requires b.Children? ==>
      && SubAddress(mem, dfh, p) == TargetAddress(b.target, dfh)
      && Unfolds(mem, TargetAddress(b.target, dfh), Tree(b.kids))
      && Flattened(mem, TargetAddress(b.target, dfh), Tree(b.kids), k, self)
         == Expected(b.kids, TargetAddress(b.target, dfh), k, self)
    ensures UnfoldsSub(mem, dfh, p, TreeBlock(b))
    ensures FlattenedSub(mem, dfh, p, TreeBlock(b), self, k) == ExpectedUnder(b, dfh, self, k)
  {
    hide ParamId, Unfolds, Flattened, Expected, Tree, SubAddress, TargetAddress;
  }

  // ---------- how many parameters that is ----------

  function BlockCount(l: List): nat {
    match l
    case LastBlock(_) => 1
    case Then(_, tail) => 1 + BlockCount(tail)
    case _ => 0
  }

  predicate EndsInNull(l: List) {
    match l
    case NullEnd => true
    case Then(_, tail) => EndsInNull(tail)
    case _ => false
  }

  lemma {:induction false} ParamsCount(l: List)
    ensures |ExpectedParams(l)| == BlockCount(l) + if EndsInNull(l) then 1 else 0
    ensures EndsInNull(l) ==> ExpectedParams(l)[BlockCount(l)] == ZERO_PARAM
    decreases l
  {
    if l.Then? {
      ParamsCount(l.tail);
    }
  }

  /** As many parameters are recorded as there are blocks, except when blocks are followed by a null block. */
  lemma ExtraParameter(f: Feature, dfh: Address, parent: int)
    ensures var params := ExpectedInfo(f, dfh, parent).params;
      && (|params| == BlockCount(f.list) <==> !(f.list.Then? && EndsInNull(f.list)))
      && (f.list.Then? && EndsInNull(f.list) ==>
            |params| == BlockCount(f.list) + 1 && params[BlockCount(f.list)] == ZERO_PARAM)
  {
    ParamsCount(f.list);
  }

  // ---------- every walk that ends is of an encoded forest ----------

  /** The forest a walk reads: wherever the walk ends, the memory encodes one of its shape. */
  lemma {:induction false} WalkIsEncoded(mem: Memory, dfh: Address, t: Level) returns (fs: Features)
    requires Unfolds(mem, dfh, t)
    ensures Encodes(mem, dfh, fs) && Tree(fs) == t
    decreases t
  {
    hide IsEol, NextDfhOffset, EncodesFeature, UnfoldsList, Ptr;
    var f := FeatureAt(mem, dfh, t.params);
    if t.Final? {
      fs := One(f);
    } else {
      var rest := WalkIsEncoded(mem, NextDfh(mem, dfh), t.rest);
      fs := More(f, NextDfhOffset(Read64(mem, dfh, 0)), rest);
    }
  }

  lemma {:induction false} FeatureAt(mem: Memory, dfh: Address, ps: Params) returns (f: Feature)
    requires UnfoldsList(mem, dfh, ps)
    ensures EncodesFeature(mem, dfh, f) && TreeList(f.list) == ps
    decreases ps, 1
  {
    hide HasParams, InstanceId, GroupId, CsrWord, FirstParam, EncodesList, UnfoldsParams, TreeList;
    var list := NoList;
    var group := Read64(mem, dfh, 0x20);
    if HasParams(group) {
      list := ListAt(mem, dfh, FirstParam(dfh), ps);
    }
    NoListIs();
    var csr := CsrOf(Read64(mem, dfh, 0x18));
    f := Feature(csr, Read64(mem, dfh, 0x10), Read64(mem, dfh, 0x08),
                 InstanceId(group), GroupId(group), list);
  }

  lemma NoListIs()
    ensures TreeList(NoList) == Absent
  {
  }

  lemma {:induction false} ListAt(mem: Memory, dfh: Address, p: Address, ps: Params) returns (l: List)
    requires UnfoldsParams(mem, dfh, p, ps)
    ensures !l.NoList? && EncodesList(mem, dfh, p, l) && TreeList(l) == ps
    decreases ps, 0
  {
    hide IsLastParam, NextParamOffset, EncodesBlock, UnfoldsSub, TreeBlock, After, NextParam;
    if IsNullParam(mem(p)) {
      l := NullEnd;
    } else {
      if !IsLastParam(mem(p)) {
        MovesOn(mem, dfh, p, ps);
      }
      var b := BlockAt(mem, dfh, p, ps.sub);
      if IsLastParam(mem(p)) {
        l := LastBlock(b);
      } else {
        var tail := ListAt(mem, dfh, NextParam(mem, p), ps.tail);
        l := Then(b, tail);
      }
    }
  }

  lemma {:induction false} BlockAt(mem: Memory, dfh: Address, p: Address, s: Sub) returns (b: Block)
    requires UnfoldsSub(mem, dfh, p, s) && !IsNullParam(mem(p))
    requires IsLastParam(mem(p)) || NextParamOffset(mem(p)) > 0
    ensures EncodesBlock(mem, dfh, p, b, IsLastParam(mem(p))) && TreeBlock(b) == s
    ensures !IsLastParam(mem(p)) ==> After(p, b) == NextParam(mem, p)
    decreases s
  {
    hide IsLastParam, NextParamOffset, ParamVersion, ParamId, Encodes, Unfolds, Tree, BranchTarget, Ptr;
    var header := mem(p);
    OffsetWords(header);
    var words: seq<Word> := WordsAt(mem, p, DataWords(header));
    if s.Plain? {
      b := Data(ParamVersion(header), words, ParamId(header));
    } else {
      var target := TargetOf(Read64(mem, p, HEADER_BYTES));
      BranchDecodes(target, dfh);
      var kids := WalkIsEncoded(mem, SubAddress(mem, dfh, p), s.level);
      b := Children(ParamVersion(header), words, target, kids);
    }
  }

  lemma OffsetWords(header: Word)
    requires !IsNullParam(header) && (IsLastParam(header) || NextParamOffset(header) > 0)
    ensures NextParamOffset(header) == 8 * (DataWords(header) + if IsLastParam(header) then 0 else 1)
    ensures IsLastParam(header) ==> DataWords(header) > 0
  {
    hide IsLastParam;
  }

  function WordsAt(mem: Memory, p: Address, n: nat): (words: seq<Word>)
    ensures words == DataAt(mem, p, n)
  {
    seq(n, i requires 0 <= i < n => mem(Ptr(p + HEADER_BYTES + 8 * i)))
  }

  /** Every word is a branch word. */
  lemma TargetOf(w: Word) returns (t: Target)
    ensures BranchWord(t) == w
  {
    Eighths(w);
    Halves(w % 8);
    t := Target(w % 8 % 2 == 1, w / 8, w % 8 / 2);
  }

  lemma Eighths(w: Word)
    ensures w == 8 * (w / 8) + w % 8 && 0 <= w / 8 < POW61 && 0 <= w % 8 < 8
  {
  }

  lemma Halves(r: nat)
    requires r < 8
    ensures r == 2 * (r / 2) + r % 2 && r / 2 < 4 && r % 2 < 2
  {
  }

  // ---------- the walker on it ----------

  /** A forest in which no feature has two branch blocks. */
  predicate SingleBranched(fs: Features) {
    SingleBranch(Tree(fs))
  }

  /**
   The walk undoes the encoding: in any memory that encodes a forest, wherever its
   features lie, it ends and records exactly the forest's entries, with their true
   parents, if and only if no feature has two branch blocks.
   */
  lemma WalkInvertsEncoding(mem: Memory, dfh: Address, fs: Features)
    requires Encodes(mem, dfh, fs)
    ensures Unfolds(mem, dfh, Tree(fs))
    ensures Collected(mem, dfh, Tree(fs), 0, -1) == Expected(fs, dfh, 0, -1) <==> SingleBranched(fs)
  {
    hide *;
    EncodingWalks(mem, dfh, fs, 0, -1);
    CollectsFlattening(mem, dfh, Tree(fs), 0, -1);
    SingleBranchedIs(fs);
  }

  lemma SingleBranchedIs(fs: Features)
    ensures SingleBranched(fs) == SingleBranch(Tree(fs))
  {
  }

  /** The walker itself, on a memory that encodes a forest. */
  method ScanEncoding(walker: Walker, dfh: Address, ghost fs: Features)
    requires walker.vec.Valid() && Encodes(walker.mem, dfh, fs)
    modifies walker, walker.vec, walker.vec.data
    ensures walker.vec.Valid() && walker.parents == old(walker.parents)
    ensures walker.vec.size == |Expected(fs, dfh, 0, -1)|
    ensures walker.vec.data[..walker.vec.size] == Expected(fs, dfh, 0, -1) <==> SingleBranched(fs)
    ensures ParentsBelow(walker.vec.data[..walker.vec.size], 0)
  {
    hide Encodes, Unfolds, Collected, Flattened, Expected, SingleBranched, ParentsBelow;
    EncodingWalks(walker.mem, dfh, fs, 0, -1);
    WalkInvertsEncoding(walker.mem, dfh, fs);
    ParentsPrecede(walker.mem, dfh, Tree(fs), 0, -1);
    walker.ScanMultiInterfaces(dfh, Tree(fs));
  }
}
