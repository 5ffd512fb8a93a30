/** JSON values as a caller of the library sees them. Strings are C strings; numbers are exact. */
module Values {
  import opened Text

  datatype Value =
    | Null
    | False
    | True
    | Number(n: real)
    | String(s: Bytes)
    | Raw(s: Bytes)
    | Array(elems: seq<Value>)
    | Object(members: seq<Member>)

  datatype Member = Member(key: Bytes, value: Value)

  /** How deeply arrays and objects nest; scalars have depth 0. */
  function Depth(v: Value): nat {
    match v
    case Array(es) => 1 + ElemsDepth(es)
    case Object(ms) => 1 + MembersDepth(ms)
    case _ => 0
  }

  function ElemsDepth(es: seq<Value>): nat {
    if es == [] then 0 else Max(Depth(es[0]), ElemsDepth(es[1..]))
  }

  function MembersDepth(ms: seq<Member>): nat {
    if ms == [] then 0 else Max(Depth(ms[0].value), MembersDepth(ms[1..]))
  }

  function Max(a: nat, b: nat): nat {
    if a < b then b else a
  }
}
