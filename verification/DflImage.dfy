/**
 Packed images: every forest laid out in one piece, and a memory that holds it.
 So the forests the walk is proved about are really there, and one of them shows
 the wrong parent a second branch gets.
 */
module DflImage {
  import opened DflFormat
  import opened DflTree
  import opened DflForest

  // ---------- layout ----------

  function BlockHeader(b: Block, last: bool): nat {
    HeaderWord(b.version, BlockId(b), last, |b.words| + if last then 0 else 1, 0)
  }

  function Start(fs: Features): nat {
    match fs
    case One(_) => StartWord(true, 0, 0, 0, 0)
    case More(_, next, _) => StartWord(false, next, 0, 0, 0)
  }

  /** Every field fits its bits; a last block is not empty, or it would read as a null block. */
  predicate Fits(fs: Features) {
    && fs.f.instance < POW16 && fs.f.group < POW15
    && FitsList(fs.f.list)
    && (fs.More? ==> fs.next < POW23 && Fits(fs.rest))
  }

  predicate FitsList(l: List) {
    match l
    case LastBlock(b) => FitsBlock(b) && b.words != []
    case Then(b, tail) => FitsBlock(b) && !tail.NoList? && FitsList(tail)
    case _ => true
  }

  predicate FitsBlock(b: Block) {
    && b.version < POW16 && 1 + |b.words| < POW29
    && match b
       case Data(_, _, id) => id < POW16 && id != BRANCH_ID
       case Children(_, _, _, kids) => Fits(kids)
  }

  function ListImage(l: List): (image: seq<nat>)
    ensures !l.NoList? ==> image != []
  {
    match l
    case NoList => []
    case NullEnd => [HeaderWord(0, 0, true, 0, 0)]
    case LastBlock(b) => [BlockHeader(b, true)] + b.words
    case Then(b, tail) => [BlockHeader(b, false)] + b.words + ListImage(tail)
  }

  function KidImage(b: Block): seq<nat> {
    if b.Data? then [] else Image(b.kids)
  }

  /** The children of all the blocks, one image after the other. */
  function KidsImage(l: List): seq<nat> {
    match l
    case LastBlock(b) => KidImage(b)
    case Then(b, tail) => KidImage(b) + KidsImage(tail)
    case _ => []
  }

  /** Where the children start, in words after the DFH. */
  function KidsAt(f: Feature): nat {
    5 + |ListImage(f.list)|
  }

  function Head(f: Feature): seq<nat> {
    [f.guidL, f.guidH, CsrWord(f.csr), GroupWord(!f.list.NoList?, f.instance, f.group, 0)]
  }

  /** A feature without its first word: fixed words, blocks, then the children. */
  function Body(f: Feature): seq<nat> {
    Head(f) + ListImage(f.list) + KidsImage(f.list)
  }

  function Image(fs: Features): seq<nat> {
    [Start(fs)] + Body(fs.f) + if fs.One? then [] else Image(fs.rest)
  }

  /** The next offsets and the branch targets are those of the layout. */
  predicate Packed(fs: Features) {
    && PackedList(fs.f.list, KidsAt(fs.f))
    && (fs.More? ==> fs.next == 8 * (1 + |Body(fs.f)|) && Packed(fs.rest))
  }

  predicate PackedList(l: List, at: nat) {
    match l
    case LastBlock(b) => PackedBlock(b, at)
    case Then(b, tail) => PackedBlock(b, at) && !tail.NoList? && PackedList(tail, at + |KidImage(b)|)
    case _ => true
  }

  predicate PackedBlock(b: Block, at: nat) {
    b.Children? ==>
      && 8 * at < POW32 && b.target == Target(false, at, 0)
      && b.words != [] && b.words[0] == 8 * at && Packed(b.kids)
  }

  // ---------- the image in memory ----------

  /** The image lies at address a, below the end of the address space. */
  ghost predicate Placed(mem: Memory, a: int, image: seq<nat>) {
    && 0 <= a && a + 8 * |image| <= POW32
    && forall i :: 0 <= i < |image| ==> mem(Ptr(a + 8 * i)) == image[i]
  }

  lemma PlacedParts(mem: Memory, a: int, x: seq<nat>, y: seq<nat>)
    requires Placed(mem, a, x + y)
    ensures Placed(mem, a, x) && Placed(mem, a + 8 * |x|, y)
  {
    forall i | 0 <= i < |x|
      ensures mem(Ptr(a + 8 * i)) == x[i]
    {
      assert (x + y)[i] == x[i];
    }
    forall i | 0 <= i < |y|
      ensures mem(Ptr(a + 8 * |x| + 8 * i)) == y[i]
    {
      assert (x + y)[|x| + i] == y[i] && a + 8 * (|x| + i) == a + 8 * |x| + 8 * i;
    }
  }

  lemma PlacedWord(mem: Memory, a: int, image: seq<nat>, i: nat)
    requires Placed(mem, a, image) && i < |image|
    ensures 0 <= a < POW32 && Ptr(a) == a && a + 8 * i < POW32 && mem(Ptr(a + 8 * i)) == image[i]
  {
  }

  lemma InRange(a: int)
    requires 0 <= a < POW32
    ensures Ptr(a) == a
  {
  }

  lemma DataPlaced(mem: Memory, p: Address, data: seq<nat>)
    requires Placed(mem, p + 8, data)
    ensures DataAt(mem, p, |data|) == data
  {
  }

  /** A memory that holds the packed image of a forest encodes the forest. */
  lemma {:induction false} ImageEncodes(mem: Memory, a: int, fs: Features)
    requires Placed(mem, a, Image(fs)) && Packed(fs) && Fits(fs)
    ensures 0 <= a < POW32 && Encodes(mem, a, fs)
    decreases fs
  {
    hide *;
    ImageParts(mem, a, fs);
    FeatureEncodes(mem, a, fs.f);
    if fs.More? {
      ImageEncodes(mem, a + fs.next, fs.rest);
      InRange(a + fs.next);
    }
    FeaturesEncode(mem, a, fs);
  }

  lemma ImageParts(mem: Memory, a: int, fs: Features)
    requires Placed(mem, a, Image(fs)) && Packed(fs) && Fits(fs)
    ensures 0 <= a < POW32 && IsEol(Read64(mem, a, 0)) == fs.One?
    ensures Placed(mem, a + 8, Body(fs.f)) && PackedList(fs.f.list, KidsAt(fs.f))
    ensures fs.f.instance < POW16 && fs.f.group < POW15 && FitsList(fs.f.list)
    ensures fs.More? ==> NextDfhOffset(Read64(mem, a, 0)) == fs.next
    ensures fs.More? ==> Placed(mem, a + fs.next, Image(fs.rest)) && Packed(fs.rest) && Fits(fs.rest)
  {
    hide Placed, Ptr, StartWord, IsEol, NextDfhOffset, Body, Image, PackedList, FitsList;
    StartDecodes(fs.One?, if fs.One? then 0 else fs.next, 0, 0, 0);
    var rest := if fs.One? then [] else Image(fs.rest);
    ImageIs(fs);
    PlacedParts(mem, a, [Start(fs)] + Body(fs.f), rest);
    PlacedParts(mem, a, [Start(fs)], Body(fs.f));
    PlacedWord(mem, a, [Start(fs)], 0);
    assert |[Start(fs)] + Body(fs.f)| == 1 + |Body(fs.f)|;
  }

  lemma ImageIs(fs: Features)
    ensures Image(fs) == [Start(fs)] + Body(fs.f) + if fs.One? then [] else Image(fs.rest)
  {
  }

  lemma FeaturesEncode(mem: Memory, a: Address, fs: Features)
    requires IsEol(Read64(mem, a, 0)) == fs.One? && EncodesFeature(mem, a, fs.f)
    requires fs.More? ==>
      NextDfhOffset(Read64(mem, a, 0)) == fs.next && Encodes(mem, Ptr(a + fs.next), fs.rest)
    ensures Encodes(mem, a, fs)
  {
    hide EncodesFeature, IsEol, NextDfhOffset;
  }

  lemma {:induction false} FeatureEncodes(mem: Memory, a: Address, f: Feature)
    requires Placed(mem, a + 8, Body(f)) && PackedList(f.list, KidsAt(f))
    requires f.instance < POW16 && f.group < POW15 && FitsList(f.list)
    ensures EncodesFeature(mem, a, f)
    decreases f
  {
    hide *;
    FeatureParts(mem, a, f);
    if !f.list.NoList? {
      ListEncodes(mem, a, a + FIRST_PARAM, f.list, KidsAt(f));
    }
    FeatureIs(mem, a, f);
  }

  lemma FeatureParts(mem: Memory, a: Address, f: Feature)
    requires Placed(mem, a + 8, Body(f)) && f.instance < POW16 && f.group < POW15
    ensures EncodesWords(mem, a, f)
    ensures Placed(mem, a + FIRST_PARAM, ListImage(f.list)) && Placed(mem, a + 8 * KidsAt(f), KidsImage(f.list))
  {
    hide GroupWord, CsrWord, HasParams, InstanceId, GroupId, ListImage, KidsImage, Ptr;
    GroupDecodes(!f.list.NoList?, f.instance, f.group, 0);
    PlacedParts(mem, a + 8, Head(f) + ListImage(f.list), KidsImage(f.list));
    PlacedParts(mem, a + 8, Head(f), ListImage(f.list));
    assert Head(f)[0] == f.guidL && Head(f)[1] == f.guidH && Head(f)[2] == CsrWord(f.csr);
    PlacedWord(mem, a + 8, Head(f), 0);
    PlacedWord(mem, a + 8, Head(f), 1);
    PlacedWord(mem, a + 8, Head(f), 2);
    PlacedWord(mem, a + 8, Head(f), 3);
  }

  lemma FeatureIs(mem: Memory, a: Address, f: Feature)
    requires EncodesWords(mem, a, f)
    requires !f.list.NoList? ==> 0 <= a + FIRST_PARAM < POW32 && EncodesList(mem, a, a + FIRST_PARAM, f.list)
    ensures EncodesFeature(mem, a, f)
  {
    hide EncodesWords, EncodesList;
  }

  lemma {:induction false} ListEncodes(mem: Memory, dfh: Address, p: int, l: List, at: nat)
    requires !l.NoList? && Placed(mem, p, ListImage(l)) && Placed(mem, dfh + 8 * at, KidsImage(l))
    requires PackedList(l, at) && FitsList(l)
    ensures 0 <= p < POW32 && EncodesList(mem, dfh, p, l)
    decreases l
  {
    hide *;
    ListPieces(mem, dfh, p, l, at);
    match l {
      case NullEnd =>
      case LastBlock(b) => BlockEncodes(mem, dfh, p, b, true, at);
      case Then(b, tail) =>
        BlockEncodes(mem, dfh, p, b, false, at);
        ListEncodes(mem, dfh, p + 8 * (1 + |b.words|), tail, at + |KidImage(b)|);
    }
    ListIs(mem, dfh, p, l);
  }

  lemma ListPieces(mem: Memory, dfh: Address, p: int, l: List, at: nat)
    requires !l.NoList? && Placed(mem, p, ListImage(l)) && Placed(mem, dfh + 8 * at, KidsImage(l))
    requires PackedList(l, at) && FitsList(l)
    ensures 0 <= p < POW32
    ensures l.NullEnd? ==> IsNullParam(mem(p))
    ensures l.LastBlock? || l.Then? ==> FitsBlock(l.b) && (l.LastBlock? ==> l.b.words != [])
    ensures l.Then? ==> FitsList(l.tail)
    ensures l.LastBlock? ==> PackedBlock(l.b, at) && Placed(mem, dfh + 8 * at, KidImage(l.b))
    ensures l.LastBlock? ==> Placed(mem, p, [BlockHeader(l.b, true)] + l.b.words)
    ensures l.Then? ==> PackedBlock(l.b, at) && Placed(mem, dfh + 8 * at, KidImage(l.b))
    ensures l.Then? ==> Placed(mem, p, [BlockHeader(l.b, false)] + l.b.words)
    ensures l.Then? ==> !l.tail.NoList? && PackedList(l.tail, at + |KidImage(l.b)|)
    ensures l.Then? ==> Placed(mem, p + 8 * (1 + |l.b.words|), ListImage(l.tail))
    ensures l.Then? ==> Placed(mem, dfh + 8 * (at + |KidImage(l.b)|), KidsImage(l.tail))
  {
    hide Placed, Ptr, BlockHeader, HeaderWord, IsLastParam, NextParamOffset, PackedBlock, KidImage, FitsBlock;
    HeaderDecodes(0, 0, true, 0, 0);
    PlacedWord(mem, p, ListImage(l), 0);
    InRange(p);
    if l.Then? {
      var block := [BlockHeader(l.b, false)] + l.b.words;
      PlacedParts(mem, p, block, ListImage(l.tail));
      PlacedParts(mem, dfh + 8 * at, KidImage(l.b), KidsImage(l.tail));
      assert |block| == 1 + |l.b.words|;
    }
  }

  lemma ListIs(mem: Memory, dfh: Address, p: int, l: List)
    requires 0 <= p < POW32 && !l.NoList?
    requires l.NullEnd? ==> IsNullParam(mem(p))
    requires l.LastBlock? ==> EncodesBlock(mem, dfh, p, l.b, true)
    requires l.Then? ==>
      && EncodesBlock(mem, dfh, p, l.b, false)
      && 0 <= p + 8 * (1 + |l.b.words|) < POW32
      && EncodesList(mem, dfh, p + 8 * (1 + |l.b.words|), l.tail)
    ensures EncodesList(mem, dfh, p, l)
  {
    hide EncodesBlock, IsNullParam;
  }

  lemma {:induction false} BlockEncodes(mem: Memory, dfh: Address, p: Address, b: Block, last: bool, at: nat)
    requires Placed(mem, p, [BlockHeader(b, last)] + b.words) && Placed(mem, dfh + 8 * at, KidImage(b))
    requires PackedBlock(b, at) && FitsBlock(b) && (last ==> b.words != [])
    ensures EncodesBlock(mem, dfh, p, b, last)
    decreases b
  {
    hide *;
    BlockPieces(mem, dfh, p, b, last, at);
    if b.Children? {
      ImageEncodes(mem, dfh + 8 * at, b.kids);
    }
    BlockIs(mem, dfh, p, b, last, at);
  }

  lemma BlockPieces(mem: Memory, dfh: Address, p: Address, b: Block, last: bool, at: nat)
    requires Placed(mem, p, [BlockHeader(b, last)] + b.words) && Placed(mem, dfh + 8 * at, KidImage(b))
    requires PackedBlock(b, at) && FitsBlock(b) && (last ==> b.words != [])
    ensures EncodesHeader(mem(p), b, last) && DataAt(mem, p, |b.words|) == b.words
    ensures b.Children? ==>
      && Placed(mem, dfh + 8 * at, Image(b.kids)) && Packed(b.kids) && Fits(b.kids)
      && b.target == Target(false, at, 0) && Read64(mem, p, HEADER_BYTES) == 8 * at
  {
    hide Placed, Ptr, HeaderWord, ParamVersion, ParamId, IsLastParam, NextParamOffset, Image, Packed, Fits, DataAt;
    HeaderDecodes(b.version, BlockId(b), last, |b.words| + if last then 0 else 1, 0);
    PlacedParts(mem, p, [BlockHeader(b, last)], b.words);
    PlacedWord(mem, p, [BlockHeader(b, last)], 0);
    DataPlaced(mem, p, b.words);
    if b.Children? {
      PlacedWord(mem, p + 8, b.words, 0);
    }
  }

  lemma BlockIs(mem: Memory, dfh: Address, p: Address, b: Block, last: bool, at: nat)
    requires EncodesHeader(mem(p), b, last) && DataAt(mem, p, |b.words|) == b.words
    requires b.Children? ==>
      && 0 <= dfh + 8 * at < POW32 && b.target == Target(false, at, 0) && Read64(mem, p, HEADER_BYTES) == 8 * at
      && Encodes(mem, dfh + 8 * at, b.kids)
    ensures EncodesBlock(mem, dfh, p, b, last)
  {
    hide EncodesHeader, Read64, DataAt, Encodes;
  }

  // ---------- such memories exist ----------

  ghost predicate AreWords(s: seq<nat>) {
    forall i :: 0 <= i < |s| ==> s[i] < POW64
  }

  /** The image at address 0, zeros behind it. */
  function Loaded(image: seq<nat>): Memory {
    a => if a % 8 == 0 && 0 <= a / 8 < |image| && image[a / 8] < POW64 then image[a / 8] else 0
  }

  lemma LoadedPlaced(image: seq<nat>)
    requires AreWords(image) && 8 * |image| <= POW32
    ensures Placed(Loaded(image), 0, image)
  {
    forall i | 0 <= i < |image|
      ensures Loaded(image)(Ptr(8 * i)) == image[i]
    {
      InRange(8 * i);
    }
  }

  /** Every word of the image of a forest that fits its format is one. */
  lemma {:induction false} ImageIsWords(fs: Features)
    requires Fits(fs)
    ensures AreWords(Image(fs))
    decreases fs
  {
    hide GroupWord, StartWord, CsrWord, ListImage, KidsImage, FitsList;
    StartDecodes(fs.One?, if fs.One? then 0 else fs.next, 0, 0, 0);
    GroupDecodes(!fs.f.list.NoList?, fs.f.instance, fs.f.group, 0);
    ListIsWords(fs.f.list);
    KidsAreWords(fs.f.list);
    if fs.More? {
      ImageIsWords(fs.rest);
    }
  }

  lemma {:induction false} ListIsWords(l: List)
    requires FitsList(l)
    ensures AreWords(ListImage(l))
    decreases l, 0
  {
    hide HeaderWord, Fits;
    match l {
      case NoList =>
      case NullEnd => HeaderDecodes(0, 0, true, 0, 0);
      case LastBlock(b) => HeaderDecodes(b.version, BlockId(b), true, |b.words|, 0);
      case Then(b, tail) =>
        HeaderDecodes(b.version, BlockId(b), false, |b.words| + 1, 0);
        ListIsWords(tail);
    }
  }

  lemma {:induction false} KidsAreWords(l: List)
    requires FitsList(l)
    ensures AreWords(KidsImage(l))
    decreases l, 1
  {
    hide Image, Fits;
    if l.LastBlock? || l.Then? {
      if l.b.Children? {
        ImageIsWords(l.b.kids);
      }
    }
    if l.Then? {
      KidsAreWords(l.tail);
    }
  }

  /** Every packed forest that fits its format and the address space is encoded by some memory. */
  lemma PackedForestsExist(fs: Features)
    requires Fits(fs) && Packed(fs) && 8 * |Image(fs)| <= POW32
    ensures Encodes(Loaded(Image(fs)), 0, fs)
  {
    hide *;
    ImageIsWords(fs);
    LoadedPlaced(Image(fs));
    ImageEncodes(Loaded(Image(fs)), 0, fs);
  }

  // ---------- one with two branches ----------

  const LEAF := One(Feature(Csr(true, 0x200), 0, 0, 0, 0, NoList))
  const FIRST := Children(0, [72], Target(false, 9, 0), LEAF)
  const SECOND := Children(0, [112], Target(false, 14, 0), LEAF)
  const TWO_BRANCHES := One(Feature(Csr(false, 0x20), 1, 2, 3, 5, Then(FIRST, LastBlock(SECOND))))

  /** Its image, word by word: the feature with two branch blocks, then two leaves. */
  const TWO_BRANCHES_IMAGE: seq<nat> :=
    [0x100_0000_0000, 2, 1, 0x40, 0x8005_0003, 0x10_0000_000C, 72, 0x9_0000_000C, 112,
     0x100_0000_0000, 0, 0, 0x401, 0,
     0x100_0000_0000, 0, 0, 0x401, 0]

  lemma TwoBranchesImage()
    ensures Image(TWO_BRANCHES) == TWO_BRANCHES_IMAGE
  {
    hide ListImage, KidsImage, Fits, Packed;
    TwoBranchesList();
    LeafImage();
    assert Head(TWO_BRANCHES.f) == [2, 1, 0x40, 0x8005_0003];
  }

  lemma TwoBranchesList()
    ensures ListImage(TWO_BRANCHES.f.list) == [0x10_0000_000C, 72, 0x9_0000_000C, 112]
    ensures KidsImage(TWO_BRANCHES.f.list) == Image(LEAF) + Image(LEAF)
  {
    hide Image;
    assert ListImage(LastBlock(SECOND)) == [0x9_0000_000C, 112];
    assert KidsImage(LastBlock(SECOND)) == Image(LEAF);
  }

  lemma LeafImage()
    ensures Image(LEAF) == [0x100_0000_0000, 0, 0, 0x401, 0]
  {
  }

  lemma TwoBranchesFit()
    ensures Fits(TWO_BRANCHES) && Packed(TWO_BRANCHES) && |Image(TWO_BRANCHES)| == 19
    ensures !SingleBranched(TWO_BRANCHES)
  {
    assert |Image(LEAF)| == 5;
    assert |ListImage(LastBlock(SECOND))| == 2;
    assert Packed(LEAF);
    assert |KidsImage(LastBlock(SECOND))| == 5;
  }

  /** The leaves by right both belong to the first feature. */
  lemma RightParents(dfh: Address)
    ensures var expected := Expected(TWO_BRANCHES, dfh, 0, -1);
      |expected| == 3 && expected[1].parent == expected[2].parent == 0
  {
    var list := TWO_BRANCHES.f.list;
    OneLeaf(TargetAddress(FIRST.target, dfh), 1, 0);
    OneLeaf(TargetAddress(SECOND.target, dfh), 2, 0);
    var first, second := ExpectedUnder(FIRST, dfh, 0, 1), ExpectedUnder(SECOND, dfh, 0, 2);
    assert |first| == 1 && first[0].parent == 0 && |second| == 1 && second[0].parent == 0;
    assert ExpectedIn(LastBlock(SECOND), dfh, 0, 2) == second;
    assert ExpectedIn(list, dfh, 0, 1) == first + second;
  }

  lemma OneLeaf(dfh: Address, k: nat, parent: int)
    ensures Expected(LEAF, dfh, k, parent) == [ExpectedInfo(LEAF.f, dfh, parent)]
  {
    assert ExpectedIn(LEAF.f.list, dfh, k, k + 1) == [];
  }

  /** Wherever it lies, the leaf of the second branch is recorded as a child of the first leaf. */
  lemma WrongParent(mem: Memory, dfh: Address)
    requires Unfolds(mem, dfh, Tree(TWO_BRANCHES))
    ensures var collected := Collected(mem, dfh, Tree(TWO_BRANCHES), 0, -1);
      |collected| == 3 && collected[1].parent == 0 && collected[2].parent == 1
  {
    hide UnfoldsList, UnfoldsParams, UnfoldsSub, Collected, CollectedParams, InfoAt, FirstParam, NextParam, SubAddress;
    var t, leaf, p := Tree(TWO_BRANCHES), Final(Absent), FirstParam(dfh);
    var last := Params.Last(Branch(leaf));
    assert t == Final(Cons(Branch(leaf), last)) && NodesUnder(Branch(leaf)) == 1;
    LevelUnfold(mem, dfh, t, 0, -1);
    ListOf(mem, dfh, t.params);
    ListUnfold(mem, dfh, p, t.params, 0, 0);
    ListUnfold(mem, dfh, NextParam(mem, p), last, 0, 1);
    LeafLabel(mem, dfh, p, leaf, 0);
    LeafLabel(mem, dfh, NextParam(mem, p), leaf, 1);
  }

  lemma ListOf(mem: Memory, dfh: Address, ps: Params)
    requires UnfoldsList(mem, dfh, ps) && !ps.Absent?
    ensures UnfoldsParams(mem, dfh, FirstParam(dfh), ps)
  {
    hide UnfoldsParams;
  }

  lemma LeafLabel(mem: Memory, dfh: Address, p: Address, t: Level, last: nat)
    requires UnfoldsSub(mem, dfh, p, Branch(t))
    ensures |CollectedSub(mem, dfh, p, Branch(t), last)| == Nodes(t) > 0
    ensures CollectedSub(mem, dfh, p, Branch(t), last)[0].parent == last
  {
    hide Unfolds, Collected, SubAddress;
    HeadLabels(mem, SubAddress(mem, dfh, p), t, last + 1, last);
  }

  /** A memory in which that happens. */
  lemma WrongParentHappens()
    ensures var mem := Loaded(TWO_BRANCHES_IMAGE);
      && Encodes(mem, 0, TWO_BRANCHES) && Unfolds(mem, 0, Tree(TWO_BRANCHES))
      && |Collected(mem, 0, Tree(TWO_BRANCHES), 0, -1)| == 3
      && Collected(mem, 0, Tree(TWO_BRANCHES), 0, -1)[2].parent == 1
      && |Expected(TWO_BRANCHES, 0, 0, -1)| == 3 && Expected(TWO_BRANCHES, 0, 0, -1)[2].parent == 0
  {
    hide Encodes, Fits, Packed, Unfolds, Collected, Expected, Image, Tree, Loaded, SingleBranched;
    var mem := Loaded(TWO_BRANCHES_IMAGE);
    TwoBranchesImage();
    TwoBranchesFit();
    PackedForestsExist(TWO_BRANCHES);
    WalkInvertsEncoding(mem, 0, TWO_BRANCHES);
    WrongParent(mem, 0);
    RightParents(0);
  }

  // ---------- one with a parameter too many ----------

  const ONE_BLOCK := One(Feature(Csr(false, 0x20), 1, 2, 3, 5, Then(Data(1, [7], 1), NullEnd)))

  const ONE_BLOCK_IMAGE: seq<nat> := [0x100_0000_0000, 2, 1, 0x40, 0x8005_0003, 0x10_0001_0001, 7, 0x1_0000_0000]

  const ONE_BLOCK_INFO := Info(0x40, 1, 2, 3, 5, -1, false, false, [Param(1, 1, [7]), Param(0, 0, [])])

  /** A memory with a list of one block and a null block, for which two parameters are recorded. */
  lemma ExtraParameterHappens()
    ensures var mem := Loaded(ONE_BLOCK_IMAGE);
      && Encodes(mem, 0, ONE_BLOCK) && Unfolds(mem, 0, Tree(ONE_BLOCK)) && BlockCount(ONE_BLOCK.f.list) == 1
      && Collected(mem, 0, Tree(ONE_BLOCK), 0, -1) == [ONE_BLOCK_INFO]
  {
    hide Encodes, Unfolds, Collected, Expected, Image, Fits, Packed, Loaded, Tree, SingleBranched, BlockCount;
    var mem := Loaded(ONE_BLOCK_IMAGE);
    OneBlockFits();
    PackedForestsExist(ONE_BLOCK);
    WalkInvertsEncoding(mem, 0, ONE_BLOCK);
    OneBlockExpected();
  }

  lemma OneBlockExpected()
    ensures BlockCount(ONE_BLOCK.f.list) == 1
    ensures Expected(ONE_BLOCK, 0, 0, -1) == [ONE_BLOCK_INFO]
  {
    var list := ONE_BLOCK.f.list;
    assert ExpectedIn(list, 0, 0, 1) == [];
    assert ExpectedParams(list) == [Param(1, 1, [7]), ZERO_PARAM];
  }

  lemma OneBlockFits()
    ensures Fits(ONE_BLOCK) && Packed(ONE_BLOCK) && Image(ONE_BLOCK) == ONE_BLOCK_IMAGE && SingleBranched(ONE_BLOCK)
  {
    assert ListImage(ONE_BLOCK.f.list) == [0x10_0001_0001, 7] + ListImage(NullEnd);
    assert ListImage(NullEnd) == [0x1_0000_0000] && KidsImage(NullEnd) == [];
  }
}
