/** The elements of an array and the heap in which they keep text: writes, fetch and adds
    and compare and swaps by one thread at a time, with the bytes of the heap.

    An element of type STRING or JSON owns the block its data word points to.  `blocks` and
    `texts` record the block and the text of each such element. */
module Region {
  import opened Tags
  import opened BuddyTree
  import opened BuddyHeap

  const NUL: char := '\0'
  const MAX_NUMBER2STR_LEN: nat := 40

  /** A string as C has it: it ends at the first NUL. */
  predicate CString(s: string) {
    forall k :: 0 <= k < |s| ==> s[k] != NUL
  }

  datatype View = View(types: seq<Type>, words: seq<int>, bytes: seq<char>, live: set<nat>, blocks: seq<nat>, texts: seq<string>)

  /** The bytes at `at` are the text and its terminator. */
  predicate TextAt(bytes: seq<char>, at: int, text: string) {
    && 0 <= at && at + |text| < |bytes|
    && (forall k :: 0 <= k < |text| ==> bytes[at + k] == text[k])
    && bytes[at + |text|] == NUL
  }

  /** Live block `n` holds the text, and `word` is its byte offset. */
  ghost predicate Holds(level: nat, live: set<nat>, bytes: seq<char>, word: int, n: nat, text: string) {
    && n in live && Depth(n) <= level
    && word == Lo(level, n) * BLOCK_SIZE
    && |text| < Len(level, n) * BLOCK_SIZE
    && CString(text) && TextAt(bytes, word, text)
  }

  ghost predicate CellOk(level: nat, v: View, i: nat)
    requires i < |v.types| == |v.words| == |v.blocks| == |v.texts|
  {
    IsText(v.types[i]) ==> Holds(level, v.live, v.bytes, v.words[i], v.blocks[i], v.texts[i])
  }

  /** Every text element owns one live block, no two own the same, and no other live block
      exists; except that element `k` is being worked on, and the blocks `loose` are owned by
      no other element. */
  ghost predicate Owned(level: nat, v: View, k: int, loose: set<nat>) {
    && |v.types| == |v.words| == |v.blocks| == |v.texts|
    && (forall i: nat {:trigger CellOk(level, v, i)} :: i < |v.types| && i != k ==> CellOk(level, v, i))
    && (forall i: nat, j: nat {:trigger v.blocks[i], v.blocks[j]} :: i < j < |v.types| && i != k && j != k && IsText(v.types[i]) && IsText(v.types[j]) ==>
          v.blocks[i] != v.blocks[j])
    && loose <= v.live
    && (forall i: nat {:trigger v.blocks[i]} :: i < |v.types| && i != k && IsText(v.types[i]) ==> v.blocks[i] !in loose)
    && (forall n: nat {:trigger n in v.live} :: n in v.live ==> n in loose || OwnedBySome(v, k, n))
  }

  ghost predicate OwnedBySome(v: View, k: int, n: nat)
    requires |v.types| == |v.blocks|
  {
    exists i: nat :: i < |v.types| && i != k && IsText(v.types[i]) && v.blocks[i] == n
  }

  /** The block of an element, if it owns one. */
  function Block(v: View, k: nat): set<nat>
    requires k < |v.types| == |v.blocks|
  {
    if IsText(v.types[k]) then {v.blocks[k]} else {}
  }

  /** Element `k` is taken out: its block is loose. */
  lemma {:induction false} Loosen(level: nat, v: View, k: nat)
    requires Owned(level, v, -1, {}) && k < |v.types|
    ensures Owned(level, v, k, Block(v, k))
    ensures CellOk(level, v, k)
  {
    assert CellOk(level, v, k);
    forall n: nat | n in v.live
      ensures n in Block(v, k) || OwnedBySome(v, k, n)
    {
      assert OwnedBySome(v, -1, n);
    }
    forall i: nat | i < |v.types| && i != k && IsText(v.types[i])
      ensures v.blocks[i] !in Block(v, k)
    {
      assert IsText(v.types[k]) ==> v.blocks[i] != v.blocks[k];
    }
  }

  /** A loose block is freed. */
  lemma {:induction false} Freed(level: nat, v: View, k: int, loose: set<nat>, n: nat)
    requires Owned(level, v, k, loose) && n in loose
    ensures Owned(level, v.(live := v.live - {n}), k, loose - {n})
  {
    var v' := v.(live := v.live - {n});
    forall i: nat | i < |v.types| && i != k
      ensures CellOk(level, v', i)
    {
      assert CellOk(level, v, i);
    }
    forall m: nat | m in v'.live
      ensures m in loose - {n} || OwnedBySome(v', k, m)
    {
      assert m in loose || OwnedBySome(v, k, m);
    }
  }

  /** A new block is loose. */
  lemma {:induction false} Gained(level: nat, v: View, k: int, loose: set<nat>, n: nat)
    requires Owned(level, v, k, loose) && n !in v.live
    ensures Owned(level, v.(live := v.live + {n}), k, loose + {n})
  {
    var v' := v.(live := v.live + {n});
    forall i: nat | i < |v.types| && i != k
      ensures CellOk(level, v', i) && (IsText(v.types[i]) ==> v.blocks[i] != n)
    {
      assert CellOk(level, v, i);
    }
    forall m: nat | m in v'.live
      ensures m in loose + {n} || OwnedBySome(v', k, m)
    {
      if m != n { assert m in loose || OwnedBySome(v, k, m); }
    }
  }

  /** The bytes differ at most inside the run of block `n`. */
  ghost predicate SameOutside(level: nat, n: nat, bytes: seq<char>, bytes': seq<char>)
    requires Depth(n) <= level
  {
    && |bytes'| == |bytes|
    && forall b: nat {:trigger bytes'[b]} :: b < |bytes| && !(Lo(level, n) * BLOCK_SIZE <= b < (Lo(level, n) + Len(level, n)) * BLOCK_SIZE) ==> bytes'[b] == bytes[b]
  }

  lemma {:induction false} HoldsApart(level: nat, live: set<nat>, bytes: seq<char>, bytes': seq<char>, word: int, m: nat, text: string, n: nat)
    requires Antichain(level, live) && n in live && m != n && Holds(level, live, bytes, word, m, text)
    requires SameOutside(level, n, bytes, bytes')
    ensures Holds(level, live, bytes', word, m, text)
  {
    LiveBlocksSafe(level, live, m, n);
  }

  /** Writing into a loose block disturbs no element's text. */
  lemma {:induction false} Wrote(level: nat, v: View, k: int, loose: set<nat>, n: nat, bytes': seq<char>)
    requires Antichain(level, v.live) && Owned(level, v, k, loose) && n in loose
    requires SameOutside(level, n, v.bytes, bytes')
    ensures Owned(level, v.(bytes := bytes'), k, loose)
  {
    var v' := v.(bytes := bytes');
    forall i: nat | i < |v.types| && i != k
      ensures CellOk(level, v', i)
    {
      assert CellOk(level, v, i);
      if IsText(v.types[i]) {
        HoldsApart(level, v.live, v.bytes, bytes', v.words[i], v.blocks[i], v.texts[i], n);
      }
    }
    forall m: nat | m in v.live
      ensures m in loose || OwnedBySome(v', k, m)
    {
      assert m in loose || OwnedBySome(v, k, m);
    }
  }

  function Settle(v: View, k: nat, typ: Type, word: int, n: nat, text: string): View
    requires k < |v.types| == |v.words| == |v.blocks| == |v.texts|
  {
    v.(types := v.types[k := typ], words := v.words[k := word], blocks := v.blocks[k := n], texts := v.texts[k := text])
  }

  /** Element `k` is put back, owning the one block that is loose. */
  lemma {:induction false} Settled(level: nat, v: View, k: nat, loose: set<nat>, typ: Type, word: int, n: nat, text: string)
    requires Owned(level, v, k, loose) && k < |v.types|
    requires if IsText(typ) then loose == {n} && Holds(level, v.live, v.bytes, word, n, text) else loose == {}
    ensures Owned(level, Settle(v, k, typ, word, n, text), -1, {})
  {
    var v' := Settle(v, k, typ, word, n, text);
    forall i: nat | i < |v'.types|
      ensures CellOk(level, v', i)
    {
      if i != k { assert CellOk(level, v, i); }
    }
    forall m: nat | m in v'.live
      ensures OwnedBySome(v', -1, m)
    {
      assert m in loose || OwnedBySome(v, k, m);
      if m in loose {
        assert v'.blocks[k] == m && IsText(v'.types[k]);
      } else {
        var i: nat :| i < |v.types| && i != k && IsText(v.types[i]) && v.blocks[i] == m;
        assert v'.blocks[i] == m && IsText(v'.types[i]);
      }
    }
  }

  /** What ownership means for the data words: those of text elements are the addresses of
      the live blocks, one element for each block and one block for each element. */
  lemma {:induction false} WordsAreBlocks(level: nat, v: View)
    requires Owned(level, v, -1, {}) && Antichain(level, v.live)
    ensures forall i: nat :: i < |v.types| && IsText(v.types[i]) ==> exists n :: n in v.live && v.words[i] == Lo(level, n) * BLOCK_SIZE
    ensures forall n :: n in v.live ==> exists i: nat :: i < |v.types| && IsText(v.types[i]) && v.words[i] == Lo(level, n) * BLOCK_SIZE
    ensures forall i: nat, j: nat :: i < j < |v.types| && IsText(v.types[i]) && IsText(v.types[j]) ==> v.words[i] != v.words[j]
  {
    forall i: nat | i < |v.types| && IsText(v.types[i])
      ensures exists n :: n in v.live && v.words[i] == Lo(level, n) * BLOCK_SIZE
    {
      WordIsBlock(level, v, i);
    }
    forall n | n in v.live
      ensures exists i: nat :: i < |v.types| && IsText(v.types[i]) && v.words[i] == Lo(level, n) * BLOCK_SIZE
    {
      BlockIsWord(level, v, n);
    }
    forall i: nat, j: nat | i < j < |v.types| && IsText(v.types[i]) && IsText(v.types[j])
      ensures v.words[i] != v.words[j]
    {
      WordsDiffer(level, v, i, j);
    }
  }

  lemma {:induction false} WordIsBlock(level: nat, v: View, i: nat)
    requires Owned(level, v, -1, {}) && i < |v.types| && IsText(v.types[i])
    ensures v.blocks[i] in v.live && Depth(v.blocks[i]) <= level && v.words[i] == Lo(level, v.blocks[i]) * BLOCK_SIZE
  {
    assert CellOk(level, v, i);
  }

  lemma {:induction false} BlockIsWord(level: nat, v: View, n: nat)
    requires Owned(level, v, -1, {}) && n in v.live && Depth(n) <= level
    ensures exists i: nat :: i < |v.types| && IsText(v.types[i]) && v.words[i] == Lo(level, n) * BLOCK_SIZE
  {
    assert OwnedBySome(v, -1, n);
    var i: nat :| i < |v.types| && IsText(v.types[i]) && v.blocks[i] == n;
    WordIsBlock(level, v, i);
  }

  lemma {:induction false} WordsDiffer(level: nat, v: View, i: nat, j: nat)
    requires Owned(level, v, -1, {}) && Antichain(level, v.live)
    requires i < j < |v.types| && IsText(v.types[i]) && IsText(v.types[j])
    ensures v.words[i] != v.words[j]
  {
    WordIsBlock(level, v, i);
    WordIsBlock(level, v, j);
    assert v.blocks[i] != v.blocks[j];
    StartIsUnique(level, v.live, v.blocks[i], Lo(level, v.blocks[i]));
  }

  /** A value as a caller passes it: text, or anything that fits a data word. */
  datatype Arg = Text(typ: Type, s: string) | Word(typ: Type, w: int)

  /** What element `i` holds: its text, or its data word. */
  function ValueOf(v: View, i: nat): Arg
    requires i < |v.types| == |v.words| == |v.texts|
  {
    if IsText(v.types[i]) then Text(v.types[i], v.texts[i]) else Word(v.types[i], v.words[i])
  }

  predicate ArgOk(a: Arg) {
    match a
    case Text(typ, s) => IsText(typ) && CString(s)
    case Word(typ, _) => !IsText(typ)
  }

  function TextOf(a: Arg): string {
    if a.Text? then a.s else ""
  }

  /** What is added to a string: another string with the length its caller gives, the digits of
      a number, or a word. */
  datatype Suffix = OfString(s: string, len: nat) | OfNumber(s: string) | OfBool(b: bool) | OfUndefined

  function SuffixText(x: Suffix): string {
    match x
    case OfString(s, _) => s
    case OfNumber(s) => s
    case OfBool(b) => if b then "true" else "false"
    case OfUndefined => "undefined"
  }

  /** The room that is reserved for it. */
  function SuffixRoom(x: Suffix): nat {
    match x
    case OfString(_, len) => len
    case OfNumber(_) => MAX_NUMBER2STR_LEN
    case OfBool(_) => 5
    case OfUndefined => 9
  }

  predicate SuffixOk(x: Suffix) {
    CString(SuffixText(x)) && |SuffixText(x)| <= SuffixRoom(x)
  }

  /** No aligned run of free blocks holds `len` bytes. */
  ghost predicate NoRoom(level: nat, live: set<nat>, len: nat)
    requires len >= 1 && forall b :: b in live ==> Depth(b) <= level
  {
    Exhausted(level, live, GivenBlocks(len))
  }

  /** A caller gives the length of a text.  It may count more than the characters: JavaScript
      counts the terminator, and Python that and one more. */
  predicate LengthOk(a: Arg, len: nat) {
    |TextOf(a)| <= len
  }

  /** What a value needs: for a text, one byte more than the length its caller gives. */
  ghost predicate NoRoomFor(level: nat, live: set<nat>, a: Arg, len: nat)
    requires forall b :: b in live ==> Depth(b) <= level
  {
    a.Text? && NoRoom(level, live, len + 1)
  }

  /** With no text in any element, the whole heap is free. */
  lemma {:induction false} NoTextNoBlock(level: nat, v: View)
    requires Owned(level, v, -1, {}) && forall i: nat :: i < |v.types| ==> !IsText(v.types[i])
    ensures v.live == {}
  {
    assert forall n: nat {:trigger n in v.live} :: n in v.live ==> OwnedBySome(v, -1, n);
  }

  lemma {:induction false} Joined(a: string, b: string)
    requires CString(a) && CString(b)
    ensures CString(a + b)
  {}

  lemma {:induction false} EndsAtNul(bytes: seq<char>, at: nat, text: string, n: nat)
    requires CString(text) && TextAt(bytes, at, text) && n <= |text|
    ensures bytes[at + n] == NUL <==> n == |text|
  {
    if n < |text| {
      assert bytes[at + n] == text[n];
    }
  }

  class Region {
    const heap: Heap
    const types: array<Type>
    const words: array<int>
    const bytes: array<char>
    ghost var blocks: seq<nat>
    ghost var texts: seq<string>

    ghost function Snapshot(): View
      reads this, heap, types, words, bytes
    {
      View(types[..], words[..], bytes[..], heap.live, blocks, texts)
    }

    /** The parts fit together, whoever owns the blocks. */
    ghost predicate Shape()
      reads this, heap, heap.tree, types, words, bytes
    {
      && heap.Valid() && types.Length == words.Length == |blocks| == |texts|
      && bytes.Length == Pow2(heap.level) * BLOCK_SIZE
    }

    ghost predicate Valid()
      reads this, heap, heap.tree, types, words, bytes
    {
      Shape() && Owned(heap.level, Snapshot(), -1, {})
    }

    constructor (n: nat, level: nat)
      ensures Valid() && heap.live == {} && fresh(heap) && fresh(heap.tree) && fresh(types) && fresh(words) && fresh(bytes)
      ensures types.Length == n && forall i :: 0 <= i < n ==> types[i] == Undefined
    {
      heap := new Heap(level);
      types := new Type[n](_ => Undefined);
      words := new int[n];
      bytes := new char[Pow2(level) * BLOCK_SIZE];
      blocks := seq(n, _ => 0);
      texts := seq(n, _ => "");
      new;
      assert forall i: nat :: i < n ==> Snapshot().types[i] == Undefined;
    }

    /** strcpy of a string into a block. */
    method StrCpy(addr: nat, s: string)
      requires addr + |s| < bytes.Length
      modifies bytes
      ensures TextAt(bytes[..], addr, s)
      ensures forall b: nat :: b < bytes.Length && !(addr <= b <= addr + |s|) ==> bytes[b] == old(bytes[b])
    {
      for k := 0 to |s|
        invariant forall j :: 0 <= j < k ==> bytes[addr + j] == s[j]
        invariant forall b: nat :: b < bytes.Length && !(addr <= b < addr + k) ==> bytes[b] == old(bytes[b])
      {
        bytes[addr + k] := s[k];
      }
      bytes[addr + |s|] := NUL;
    }

    /** The text at an address, up to its terminator. */
    method StrAt(addr: nat, ghost text: string) returns (s: string)
      requires CString(text) && TextAt(bytes[..], addr, text)
      ensures s == text
    {
      var n := 0;
      while bytes[addr + n] != NUL
        invariant 0 <= n <= |text|
        decreases |text| - n
      {
        n := n + 1;
      }
      EndsAtNul(bytes[..], addr, text, n);
      s := bytes[addr..addr + n];
      assert s == text;
    }

    /** Reading an element that holds text. */
    method Read(i: nat) returns (s: string)
      requires Valid() && i < types.Length && IsText(types[i])
      ensures s == texts[i]
    {
      assert CellOk(heap.level, Snapshot(), i);
      s := StrAt(words[i], texts[i]);
    }

    /** EMS_ALLOC of a number of bytes. */
    method TakeBlock(len: nat) returns (addr: int, ghost n: nat)
      requires Shape() && len >= 1
      modifies heap`live, heap.tree
      ensures Shape()
      ensures addr < 0 <==> NoRoom(heap.level, old(heap.live), len)
      ensures addr < 0 ==> heap.live == old(heap.live)
      ensures addr >= 0 ==> n !in old(heap.live) && heap.live == old(heap.live) + {n}
      ensures addr >= 0 ==> Depth(n) <= heap.level && Lo(heap.level, n) * BLOCK_SIZE == addr && len <= Len(heap.level, n) * BLOCK_SIZE
      ensures addr + len <= bytes.Length || addr < 0
    {
      n := 0;
      BlockFitsRequest(len);
      addr := heap.Alloc(len);
      if addr >= 0 {
        n :| n !in old(heap.live) && heap.live == old(heap.live) + {n} && Depth(n) <= heap.level && Lo(heap.level, n) * BLOCK_SIZE == addr
          && Len(heap.level, n) == GivenBlocks(len);
        LiveBlocksSafe(heap.level, heap.live, n, n);
      }
    }

    /** The region after text `s` has been stored in the new block `n`, which is loose. */
    ghost predicate Stored(level: nat, v: View, v': View, k: nat, loose: set<nat>, addr: int, n: nat, s: string) {
      && Owned(level, v', k, loose + {n}) && n !in loose && n in v'.live && v'.live == v.live + {n}
      && Holds(level, v'.live, v'.bytes, addr, n, s)
      && v' == v.(bytes := v'.bytes, live := v'.live)
    }

    /** EMS_ALLOC of room for a text, and strcpy into it. */
    method AllocText(ghost k: nat, ghost loose: set<nat>, s: string, room: nat) returns (addr: int, ghost n: nat)
      requires Shape() && Owned(heap.level, Snapshot(), k, loose) && CString(s) && |s| <= room
      modifies heap`live, heap.tree, bytes
      ensures Shape()
      ensures addr < 0 <==> NoRoom(heap.level, old(heap.live), room + 1)
      ensures addr < 0 ==> Snapshot() == old(Snapshot())
      ensures addr >= 0 ==> Stored(heap.level, old(Snapshot()), Snapshot(), k, loose, addr, n, s)
    {
      ghost var v := Snapshot();
      addr, n := TakeBlock(room + 1);
      if addr < 0 {
        return;
      }
      Gained(heap.level, v, k, loose, n);
      ghost var v1 := Snapshot();
      StrCpy(addr, s);
      assert SameOutside(heap.level, n, v1.bytes, bytes[..]);
      Wrote(heap.level, v1, k, loose + {n}, n, bytes[..]);
    }

    /** EMS_FREE of the text of element `k`, which is then without a block. */
    method FreeText(ghost loose: set<nat>, k: nat)
      requires Shape() && k < types.Length && blocks[k] in loose && Owned(heap.level, Snapshot(), k, loose)
      requires Depth(blocks[k]) <= heap.level && words[k] == Lo(heap.level, blocks[k]) * BLOCK_SIZE
      modifies heap`live, heap.tree
      ensures Shape() && Snapshot() == old(Snapshot()).(live := old(heap.live) - {blocks[k]})
      ensures Owned(heap.level, Snapshot(), k, loose - {blocks[k]})
    {
      Freed(heap.level, Snapshot(), k, loose, blocks[k]);
      var ok := heap.Free(words[k]);
    }

    /** The data word and the type of element `k` are set. */
    method SetCell(k: nat, typ: Type, word: int, ghost loose: set<nat>, ghost n: nat, ghost text: string)
      requires Shape() && k < types.Length && Owned(heap.level, Snapshot(), k, loose)
      requires if IsText(typ) then loose == {n} && Holds(heap.level, heap.live, bytes[..], word, n, text) else loose == {}
      modifies types, words, this`blocks, this`texts
      ensures Valid() && Snapshot() == Settle(old(Snapshot()), k, typ, word, n, text)
    {
      Settled(heap.level, Snapshot(), k, loose, typ, word, n, text);
      words[k] := word;
      types[k] := typ;
      blocks := blocks[k := n];
      texts := texts[k := text];
      assert Snapshot() == Settle(old(Snapshot()), k, typ, word, n, text);
    }

    /** What a write of `a` to element `k` does to the elements. */
    ghost predicate Written(v: View, v': View, k: nat, a: Arg)
      requires k < |v.types| == |v.texts| == |v.words|
    {
      && v'.types == v.types[k := a.typ] && v'.texts == v.texts[k := TextOf(a)]
      && |v'.words| == |v.words| && (forall i :: 0 <= i < |v.words| && i != k ==> v'.words[i] == v.words[i])
      && (a.Word? ==> v'.words[k] == a.w)
    }

    /** The data part of EMSwriteUsingTags: the old text is freed, then room is allocated for
        the new one.  It fails exactly when there is none in the heap without the old text, and
        then the element still says it holds that text: the region is left intact exactly
        unless a text was to be replaced by another for which there is no room. */
    method Write(k: nat, a: Arg, len: nat) returns (ok: bool)
      requires Valid() && k < types.Length && ArgOk(a) && LengthOk(a, len)
      modifies this`blocks, this`texts, heap`live, heap.tree, types, words, bytes
      ensures Shape()
      ensures ok <==> !(a.Text? && NoRoom(heap.level, old(heap.live) - Block(old(Snapshot()), k), len + 1))
      ensures ok ==> types[k] == a.typ && match a { case Text(_, s) => texts[k] == s case Word(_, w) => words[k] == w }
      ensures ok ==> Written(old(Snapshot()), Snapshot(), k, a)
      ensures !ok ==> Snapshot() == old(Snapshot()).(live := old(heap.live) - Block(old(Snapshot()), k))
      ensures Valid() <==> !(IsText(old(types[k])) && a.Text? && NoRoom(heap.level, old(heap.live) - Block(old(Snapshot()), k), len + 1))
    {
      ghost var v, level := Snapshot(), heap.level;
      ghost var loose := Block(v, k);
      Loosen(level, v, k);
      if IsText(types[k]) {
        FreeText(loose, k);
        loose := loose - {blocks[k]};
      }
      assert loose == {} && Snapshot() == v.(live := v.live - Block(v, k));
      ok := Store(k, a, len);
      if !ok {
        StillOwned(level, v, k);
      }
    }

    /** A write that failed has lost the block of the text the element held. */
    lemma {:induction false} StillOwned(level: nat, v: View, k: nat)
      requires Owned(level, v, -1, {}) && k < |v.types|
      ensures Owned(level, v.(live := v.live - Block(v, k)), -1, {}) <==> !IsText(v.types[k])
    {
      var v' := v.(live := v.live - Block(v, k));
      if IsText(v.types[k]) {
        assert v.blocks[k] !in v'.live;
        assert !CellOk(level, v', k);
      } else {
        assert v' == v;
      }
    }

    /** Stores a value in element `k`, which owns no block. */
    method Store(k: nat, a: Arg, len: nat) returns (ok: bool)
      requires Shape() && k < types.Length && ArgOk(a) && LengthOk(a, len) && Owned(heap.level, Snapshot(), k, {})
      modifies this`blocks, this`texts, heap`live, heap.tree, types, words, bytes
      ensures Shape()
      ensures ok <==> !NoRoomFor(heap.level, old(heap.live), a, len)
      ensures ok ==> Valid() && Written(old(Snapshot()), Snapshot(), k, a)
      ensures !ok ==> Snapshot() == old(Snapshot())
    {
      match a
      case Word(typ, w) =>
        SetCell(k, typ, w, {}, 0, "");
        ok := true;
      case Text(typ, s) =>
        var addr;
        ghost var n;
        addr, n := AllocText(k, {}, s, len);
        ok := addr >= 0;
        if ok {
          assert {} + {n} == {n};
          SetCell(k, typ, addr, {n}, n, s);
        }
    }

    /** The text of an element that becomes EMPTY is freed.  The source leaves the type in the
        tag, where nothing looks at it before the next value is put there; here the element
        becomes undefined, so that the types alone say who owns a block. */
    method Discard(k: nat)
      requires Valid() && k < types.Length && IsText(types[k])
      modifies this`blocks, this`texts, heap`live, heap.tree, types, words
      ensures Valid() && types[..] == old(types[..])[k := Undefined]
      ensures forall i: nat :: i < types.Length && i != k ==> ValueOf(Snapshot(), i) == old(ValueOf(Snapshot(), i))
    {
      ghost var v := Snapshot();
      Loosen(heap.level, v, k);
      FreeText({blocks[k]}, k);
      assert {blocks[k]} - {blocks[k]} == {};
      SetCell(k, Undefined, words[k], {}, 0, "");
    }

    /** EMSfaa of something to a string: room is allocated for the old text with what is added
        to it, and the old text is freed afterwards. */
    method FaaString(k: nat, x: Suffix) returns (ok: bool, got: string)
      requires Valid() && k < types.Length && types[k] == String && SuffixOk(x)
      modifies this`blocks, this`texts, heap`live, heap.tree, types, words, bytes
      ensures Valid() && got == old(texts[k])
      ensures ok <==> !NoRoom(heap.level, old(heap.live), |old(texts[k])| + SuffixRoom(x) + 1)
      ensures ok <==> !NoRoom(heap.level, old(heap.live), |old(texts[k])| + 1 +
        (match x case OfString(_, len) => len case OfNumber(_) => 40 case OfBool(_) => 5 case OfUndefined => 9))
      ensures ok ==> types[..] == old(types[..]) && texts == old(texts)[k := got + SuffixText(x)]
      ensures ok ==> match x {
        case OfString(s, _) => texts[k] == old(texts[k]) + s
        case OfNumber(s) => texts[k] == old(texts[k]) + s
        case OfBool(b) => texts[k] == old(texts[k]) + if b then "true" else "false"
        case OfUndefined => texts[k] == old(texts[k]) + "undefined"
      }
      ensures forall i: nat :: i < types.Length && i != k ==> words[i] == old(words[i])
      ensures !ok ==> Snapshot() == old(Snapshot())
    {
      ghost var v, level := Snapshot(), heap.level;
      got := Read(k);
      Loosen(level, v, k);
      Joined(got, SuffixText(x));
      var addr;
      ghost var n;
      addr, n := AllocText(k, {blocks[k]}, got + SuffixText(x), |got| + SuffixRoom(x));
      ok := addr >= 0;
      if ok {
        TakeOver(k, addr, n, got + SuffixText(x));
        assert types[..] == v.types;
      }
    }

    /** The old text of element `k` is freed, and block `n` with the new one is its own. */
    method TakeOver(k: nat, addr: int, ghost n: nat, ghost text: string)
      requires Shape() && k < types.Length && types[k] == String && n != blocks[k]
      requires Owned(heap.level, Snapshot(), k, {blocks[k]} + {n}) && Holds(heap.level, heap.live, bytes[..], addr, n, text)
      requires Depth(blocks[k]) <= heap.level && words[k] == Lo(heap.level, blocks[k]) * BLOCK_SIZE
      modifies this`blocks, this`texts, heap`live, heap.tree, types, words
      ensures Valid() && Snapshot() == Settle(old(Snapshot()).(live := old(heap.live) - {old(blocks[k])}), k, String, addr, n, text)
    {
      FreeText({blocks[k]} + {n}, k);
      assert {blocks[k]} + {n} - {blocks[k]} == {n};
      SetCell(k, String, addr, {n}, n, text);
    }

    /** EMSfaa of a string to a boolean, or to a number with the given digits: the element
        becomes a string.  An element without a known type is an error. */
    method FaaToString(k: nat, digits: string, s: string, len: nat) returns (ok: bool)
      requires Valid() && k < types.Length && !IsText(types[k]) && types[k] != Undefined
      requires SuffixOk(OfNumber(digits)) && CString(s) && |s| <= len
      modifies this`blocks, this`texts, heap`live, heap.tree, types, words, bytes
      ensures Valid()
      ensures ok <==> old(types[k]) != Invalid && !NoRoom(heap.level, old(heap.live), len + 1 + if old(types[k]) == Boolean then 5 else 40)
      ensures ok ==> types[..] == old(types[..])[k := String]
      ensures ok ==> texts == old(texts)[k := (if old(types[k]) != Boolean then digits else if old(words[k]) != 0 then "true" else "false") + s]
      ensures forall i: nat :: i < types.Length && i != k ==> words[i] == old(words[i])
      ensures !ok ==> Snapshot() == old(Snapshot())
    {
      if types[k] == Invalid {
        return false;
      }
      var prefix := if types[k] == Boolean then OfBool(words[k] != 0) else OfNumber(digits);
      Loosen(heap.level, Snapshot(), k);
      Joined(SuffixText(prefix), s);
      var addr;
      ghost var n;
      addr, n := AllocText(k, {}, SuffixText(prefix) + s, len + SuffixRoom(prefix));
      ok := addr >= 0;
      if ok {
        assert {} + {n} == {n};
        SetCell(k, String, addr, {n}, n, SuffixText(prefix) + s);
      }
    }

    /** EMSfaa of a string to an undefined element: a text is allocated and its address stored,
        but the element is still tagged UNDEFINED, so that its block is never freed.  The
        region stays intact exactly when there is no room for it. */
    method FaaUndefined(k: nat, s: string, len: nat) returns (ok: bool)
      requires Valid() && k < types.Length && types[k] == Undefined && CString(s) && |s| <= len
      modifies heap`live, heap.tree, words, bytes
      ensures Shape() && types[..] == old(types[..]) && texts == old(texts)
      ensures ok <==> !NoRoom(heap.level, old(heap.live), len + 4)
      ensures Valid() <==> NoRoom(heap.level, old(heap.live), len + 4)
      ensures forall i: nat :: i < types.Length && i != k ==> words[i] == old(words[i])
      ensures ok ==> exists n: nat :: n !in old(heap.live) && heap.live == old(heap.live) + {n} && Holds(heap.level, heap.live, bytes[..], words[k], n, "NaN" + s)
      ensures !ok ==> Snapshot() == old(Snapshot())
    {
      ghost var v := Snapshot();
      Loosen(heap.level, v, k);
      Joined("NaN", s);
      var addr;
      ghost var n;
      addr, n := AllocText(k, {}, "NaN" + s, len + 3);
      ok := addr >= 0;
      if ok {
        words[k] := addr;
        Leaked(heap.level, v, Snapshot(), n);
      }
    }

    lemma {:induction false} Leaked(level: nat, v: View, v': View, n: nat)
      requires Owned(level, v, -1, {}) && n !in v.live && n in v'.live && v'.types == v.types && v'.blocks == v.blocks
      ensures !Owned(level, v', -1, {})
    {
      forall i: nat | i < |v.types| && IsText(v.types[i])
        ensures v.blocks[i] != n
      {
        assert CellOk(level, v, i);
      }
      assert !OwnedBySome(v', -1, n);
    }

    /** EMScas: the value in memory is compared with `cmp`, and replaced by `val` if equal. */
    method Cas(k: nat, cmp: Arg, val: Arg, len: nat) returns (ok: bool, swapped: bool)
      requires Valid() && k < types.Length && ArgOk(cmp) && ArgOk(val) && LengthOk(val, len)
      modifies this`blocks, this`texts, heap`live, heap.tree, types, words, bytes
      ensures Shape()
      ensures swapped <==> old(types[k]) == cmp.typ && match cmp { case Text(_, s) => old(texts[k]) == s case Word(_, w) => cmp.typ == Undefined || old(words[k]) == w }
      ensures ok <==> !(swapped && val.Text? && NoRoom(heap.level, old(heap.live) - Block(old(Snapshot()), k), len + 1))
      ensures ok && swapped ==> types[k] == val.typ && match val { case Text(_, s) => texts[k] == s case Word(_, w) => words[k] == w }
      ensures ok && swapped ==> Written(old(Snapshot()), Snapshot(), k, val)
      ensures !swapped ==> Snapshot() == old(Snapshot())
      ensures !ok ==> Snapshot() == old(Snapshot()).(live := old(heap.live) - Block(old(Snapshot()), k))
      ensures Valid() <==> !(swapped && IsText(old(types[k])) && val.Text? && NoRoom(heap.level, old(heap.live) - Block(old(Snapshot()), k), len + 1))
    {
      swapped := false;
      ok := true;
      if types[k] == cmp.typ {
        match cmp
        case Text(_, s) =>
          var mem := Read(k);
          swapped := mem == s;
        case Word(typ, w) =>
          swapped := typ == Undefined || words[k] == w;
      }
      if swapped {
        ok := Write(k, val, len);
      }
    }
  }
}
