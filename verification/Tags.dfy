/** Tag bytes and values of EMS memory, and the decisions the primitives take on a tag
    they have loaded. */
module Tags {

  /** The full/empty field. */
  datatype Fe = Full | Empty | Busy | RwLock

  datatype Type = Invalid | Boolean | String | Float | Integer | Undefined | Json

  /** One tag byte.  The reader count has three bits. */
  datatype Tag = Tag(fe: Fe, typ: Type, rw: nat)

  const MAX_READERS: nat := 7

  /** What a data word means under the type it was stored with.  `VInvalid` stands for a
      word read under a type it was not stored with. */
  datatype Val =
    | VInvalid
    | VUndefined
    | VBool(b: bool)
    | VInt(i: int)
    | VFloat(r: real)
    | VNaN
    | VStr(s: string)
    | VJson(s: string)

  function TypeOf(v: Val): Type {
    match v
    case VInvalid => Invalid
    case VUndefined => Undefined
    case VBool(_) => Boolean
    case VInt(_) => Integer
    case VFloat(_) => Float
    case VNaN => Float
    case VStr(_) => String
    case VJson(_) => Json
  }

  /** Strings and JSON are kept in the heap. */
  predicate IsText(t: Type) {
    t == String || t == Json
  }

  predicate HasText(v: Val) {
    v.VStr? || v.VJson?
  }

  /** The value a primitive returns for a word it reads under a type.  The word of an
      undefined element is never looked at. */
  function Decode(typ: Type, word: Val): Val {
    if typ == Undefined then VUndefined
    else if TypeOf(word) == typ then word
    else VInvalid
  }

  lemma {:induction false} DecodeOwnType(v: Val)
    ensures Decode(TypeOf(v), v) == v
  {}

  /** Does a tag that was loaded let a read that waits for `initial` go on?  `stale` is
      the reader count left in the new-tag variable by the last attempt, which the
      first attempt reads before it is set. */
  predicate ReadReady(initial: Fe, mem: Tag, stale: nat) {
    || (initial != RwLock && mem.fe == initial)
    || (initial == RwLock &&
        ((mem.fe == RwLock && stale < MAX_READERS) || mem.fe == Full) &&
        mem.rw < MAX_READERS)
  }

  /** The tag the read expects in memory when it swaps in `ReadBusy`. */
  function ReadOld(initial: Fe, mem: Tag): Tag {
    if initial == RwLock then mem else mem.(fe := initial)
  }

  function ReadBusy(initial: Fe, mem: Tag): Tag {
    mem.(fe := Busy, rw := if initial == RwLock then mem.rw + 1 else mem.rw)
  }

  /** The tag a releasing reader swaps in. */
  function Released(mem: Tag): Tag
    requires mem.rw > 0
  {
    mem.(rw := mem.rw - 1, fe := if mem.rw == 1 then Full else mem.fe)
  }
}
