/** The JSON value tree of jsoncpp (`Json::Value`), without doubles' arithmetic.

    Text is `string`; every character stands for one byte of the C++ string.
    A `Real` keeps the numeral it was read from as an opaque token. */
module JsonValue {

  const MAX_INT: int := 0x7FFF_FFFF
  const MAX_LARGEST_INT: int := 0x7FFF_FFFF_FFFF_FFFF
  const MIN_LARGEST_INT: int := -0x8000_0000_0000_0000
  const MAX_LARGEST_UINT: int := 0xFFFF_FFFF_FFFF_FFFF

  type LargestInt = x: int | MIN_LARGEST_INT <= x <= MAX_LARGEST_INT
  type LargestUInt = x: int | 0 <= x <= MAX_LARGEST_UINT

  datatype Option<+T> = None | Some(value: T)

  datatype Member = Member(name: string, value: Value)

  datatype Value =
    | Null
    | Int(i: LargestInt)
    | UInt(u: LargestUInt)
    | Real(token: string)
    | Str(s: string)
    | Bool(b: bool)
    | Arr(elems: seq<Value>)
    | Obj(members: seq<Member>)
  {
    predicate IsContainer() { Arr? || Obj? }

    /** `Value::size`: zero for everything that is not a container. */
    function Count(): nat {
      if Arr? then |elems| else if Obj? then |members| else 0
    }
  }

  /** Number of nodes, used as a termination measure. */
  function Size(v: Value): nat {
    match v
    case Arr(e) => 1 + SizeElems(e)
    case Obj(m) => 1 + SizeMembers(m)
    case _ => 1
  }

  function SizeElems(e: seq<Value>): nat {
    if e == [] then 0 else 1 + Size(e[0]) + SizeElems(e[1..])
  }

  function SizeMembers(m: seq<Member>): nat {
    if m == [] then 0 else 1 + Size(m[0].value) + SizeMembers(m[1..])
  }

  /** A property that has to hold of every node of a tree. */
  predicate RealFree(v: Value) {
    match v
    case Real(_) => false
    case Arr(e) => forall i | 0 <= i < |e| :: RealFree(e[i])
    case Obj(m) => forall i | 0 <= i < |m| :: RealFree(m[i].value)
    case _ => true
  }

  function Max(a: nat, b: nat): nat { if a < b then b else a }

  /** Nesting depth: the number of nested `readValue` activations a value needs. */
  function Height(v: Value): nat {
    match v
    case Arr(e) => 1 + HeightElems(e)
    case Obj(m) => 1 + HeightMembers(m)
    case _ => 1
  }

  function HeightElems(e: seq<Value>): nat {
    if e == [] then 0 else Max(Height(e[0]), HeightElems(e[1..]))
  }

  function HeightMembers(m: seq<Member>): nat {
    if m == [] then 0 else Max(Height(m[0].value), HeightMembers(m[1..]))
  }
}
