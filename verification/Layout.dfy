/** Where the parts of a shared array are in its memory: control words, data and map words
    with their tag bytes, the allocator's tree, and the heap. */
module Layout {
  import opened BuddyTree
  import opened BuddyHeap

  const WORD: nat := 8
  const WORDS_PER_TAG_WORD: nat := 7
  const WORDS_PER_LINE: nat := 8
  const CB_SIZE: nat := 256
  const SIZEOF_EMS_MEM: nat := 8
  const TREE_OFFSET: nat := 4
  const CB_LOCKS: nat := 12
  const SIZEOF_INT: nat := 4

  /** The word of element number `idx` of the tagged memory: every line of eight words is
      seven data words followed by a word of their tags. */
  function WordIndex(idx: nat): nat {
    idx / WORDS_PER_TAG_WORD * WORDS_PER_LINE + idx % WORDS_PER_TAG_WORD
  }

  function TagWordOffset(idx: nat): nat {
    (idx / WORDS_PER_TAG_WORD * WORDS_PER_LINE + WORDS_PER_TAG_WORD) * WORD
  }

  function TagOffset(idx: nat): nat {
    TagWordOffset(idx) + idx % WORDS_PER_TAG_WORD
  }

  /** What EMSinitialize is asked for: an array with `n` elements or, without elements, the
      control block of all `nThreads` threads. */
  datatype Sizes = Sizes(n: nat, heapSize: nat, useMap: bool, nThreads: nat)

  function Blocks(z: Sizes): nat {
    NextPow2(z.heapSize / BLOCK_SIZE + 1)
  }

  function BottomOfMap(z: Sizes): nat {
    TagWordOffset(z.n + CB_SIZE) + WORD
  }

  function BottomOfMalloc(z: Sizes): nat {
    if z.useMap then BottomOfMap(z) + BottomOfMap(z) else BottomOfMap(z)
  }

  function BottomOfHeap(z: Sizes): nat {
    BottomOfMalloc(z) + SIZEOF_EMS_MEM + (Blocks(z) * 2 - 2)
  }

  function FileSize(z: Sizes): nat {
    if z.n == 0 then (CB_LOCKS + z.nThreads) * SIZEOF_INT else BottomOfHeap(z) + Blocks(z) * BLOCK_SIZE
  }

  /** The header words that EMSisMapped compares. */
  predicate IsMapped(mapBot: nat, mallocBot: nat) {
    mapBot * WORD != mallocBot
  }

  /** A part of the memory: an integer of the control block of all threads; or a word or a tag
      byte of the control block of an array, of its data or of its map, the fields of the
      allocator, or the heap. */
  datatype Part =
    | ThreadsInt(i: nat)
    | ControlWord(i: nat) | ControlTag(i: nat)
    | DataWord(i: nat) | DataTag(i: nat)
    | MapWord(i: nat) | MapTag(i: nat)
    | Level | Tree | Heap

  predicate Exists(z: Sizes, p: Part) {
    (p.ThreadsInt? <==> z.n == 0) &&
    match p
    case ThreadsInt(i) => i < CB_LOCKS + z.nThreads
    case ControlWord(i) => i < CB_SIZE
    case ControlTag(i) => i < CB_SIZE
    case DataWord(i) => i < z.n
    case DataTag(i) => i < z.n
    case MapWord(i) => z.useMap && i < z.n
    case MapTag(i) => z.useMap && i < z.n
    case _ => true
  }

  /** The place of a word or tag in the tagged memory, counted in elements. */
  function Place(z: Sizes, p: Part): nat {
    match p
    case ControlWord(i) => i
    case ControlTag(i) => i
    case DataWord(i) => i + CB_SIZE
    case DataTag(i) => i + CB_SIZE
    case MapWord(i) => i + CB_SIZE + z.n
    case MapTag(i) => i + CB_SIZE + z.n
    case _ => 0
  }

  predicate IsWord(p: Part) {
    p.ControlWord? || p.DataWord? || p.MapWord?
  }

  predicate IsTag(p: Part) {
    p.ControlTag? || p.DataTag? || p.MapTag?
  }

  /** The first byte of a part, and how many bytes it has. */
  function Start(z: Sizes, p: Part): nat {
    if p.ThreadsInt? then p.i * SIZEOF_INT
    else if IsWord(p) then WordIndex(Place(z, p)) * WORD
    else if IsTag(p) then TagOffset(Place(z, p))
    else if p.Level? then BottomOfMalloc(z)
    else if p.Tree? then BottomOfMalloc(z) + TREE_OFFSET
    else BottomOfHeap(z)
  }

  function Size(z: Sizes, p: Part): int {
    if p.ThreadsInt? then SIZEOF_INT
    else if IsWord(p) then WORD
    else if IsTag(p) then 1
    else if p.Level? then 4
    else if p.Tree? then 2 * Blocks(z) - 1
    else Blocks(z) * BLOCK_SIZE
  }

  lemma {:induction false} BlocksPositive(z: Sizes)
    ensures Blocks(z) >= 1
    ensures z.heapSize < Blocks(z) * BLOCK_SIZE
  {
    BlockFitsRequest(z.heapSize + 1);
    assert (z.heapSize + 1 + (BLOCK_SIZE - 1)) / BLOCK_SIZE == z.heapSize / BLOCK_SIZE + 1;
  }

  lemma {:induction false} BlocksLeast(z: Sizes)
    ensures forall k: nat :: Pow2(k) * 32 > z.heapSize ==> Blocks(z) <= Pow2(k)
  {
    BlockFitsRequest(z.heapSize + 1);
    assert (z.heapSize + 1 + 31) / 32 == z.heapSize / 32 + 1;
  }

  /** Different words, different tags, and words and tags of the tagged memory are apart. */
  lemma {:induction false} WordsApart(i: nat, j: nat)
    ensures i != j ==> WordIndex(i) != WordIndex(j) && TagOffset(i) != TagOffset(j)
    ensures !(WordIndex(i) * WORD <= TagOffset(j) < WordIndex(i) * WORD + WORD)
  {
    var a, b := i / 7, j / 7;
    assert i == 7 * a + i % 7 && j == 7 * b + j % 7;
  }

  lemma {:induction false} LineEnds(i: nat)
    ensures WordIndex(i) * WORD + WORD <= (i / 7 + 1) * 64 && TagOffset(i) + 1 <= (i / 7 + 1) * 64
  {
    assert i == 7 * (i / 7) + i % 7;
  }

  /** The tagged memory ends before the allocator begins. */
  lemma {:induction false} TaggedBelow(z: Sizes, p: Part)
    requires Exists(z, p) && (IsWord(p) || IsTag(p))
    ensures Start(z, p) + Size(z, p) <= BottomOfMalloc(z)
  {
    var i := Place(z, p);
    assert i < CB_SIZE + (if z.useMap then z.n + z.n else z.n);
    LineEnds(i);
    assert Start(z, p) + Size(z, p) <= (i / 7 + 1) * 64;
  }

  /** Every part is inside the file, and any two of them are apart, for every number of
      elements and threads, heap size and choice of map. */
  lemma {:induction false} PartsApart(z: Sizes, p: Part, q: Part)
    requires Exists(z, p) && Exists(z, q) && p != q
    ensures Size(z, p) >= 1 && Start(z, p) + Size(z, p) <= FileSize(z)
    ensures Start(z, p) + Size(z, p) <= Start(z, q) || Start(z, q) + Size(z, q) <= Start(z, p)
  {
    BlocksPositive(z);
    assert z.n == 0 ==> p.ThreadsInt? && q.ThreadsInt?;
    if IsWord(p) || IsTag(p) { TaggedBelow(z, p); }
    if IsWord(q) || IsTag(q) { TaggedBelow(z, q); }
    if (IsWord(p) || IsTag(p)) && (IsWord(q) || IsTag(q)) {
      PlacesApart(z, p, q);
    }
  }

  lemma {:induction false} PlacesApart(z: Sizes, p: Part, q: Part)
    requires Exists(z, p) && Exists(z, q) && p != q && (IsWord(p) || IsTag(p)) && (IsWord(q) || IsTag(q))
    ensures Start(z, p) + Size(z, p) <= Start(z, q) || Start(z, q) + Size(z, q) <= Start(z, p)
  {
    assert IsWord(p) == IsWord(q) ==> Place(z, p) != Place(z, q);
    WordsApart(Place(z, p), Place(z, q));
    WordsApart(Place(z, q), Place(z, p));
  }

  /** The tree has a byte for every node of the allocator, and the heap room for its blocks,
      which is more than the room that was asked for, no more than it needs to be, and the end of
      the file. */
  lemma {:induction false} AllocatorFits(z: Sizes)
    ensures exists level: nat :: Blocks(z) == Pow2(level) && Size(z, Tree) == Pow2(level + 1) - 1 && Size(z, Heap) == Pow2(level) * 32
    ensures Size(z, Heap) > z.heapSize
    ensures forall k: nat :: Pow2(k) * 32 > z.heapSize ==> Size(z, Heap) <= Pow2(k) * 32
    ensures z.n > 0 ==> Start(z, Heap) + Size(z, Heap) == FileSize(z)
  {
    BlocksPositive(z);
    BlocksLeast(z);
    var level: nat :| Blocks(z) == Pow2(level);
    assert Pow2(level + 1) == 2 * Pow2(level);
  }

  /** An array reads as mapped exactly when a map was asked for. */
  lemma {:induction false} MappedIffAsked(z: Sizes)
    ensures IsMapped(BottomOfMap(z) / WORD, BottomOfMalloc(z)) <==> z.useMap
  {
    assert BottomOfMap(z) % WORD == 0;
  }
}
