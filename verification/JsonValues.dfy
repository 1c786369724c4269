/** The values JSON text stands for. */
module JsonValues {
  import opened Bytes
  import opened Numbers

  datatype Json =
    | Null
    | False
    | True
    | Number(d: real)
    | String(s: Text)
    | Array(items: seq<Json>)
    | Object(members: seq<Member>)

  datatype Member = Member(name: Text, value: Json)

  // Every number is a 32-bit integer, which is what `%d` prints.
  predicate Printable(j: Json) {
    match j
    case Number(d) => IsInt32(d)
    case Array(items) => AllPrintable(items)
    case Object(members) => MembersPrintable(members)
    case _ => true
  }

  predicate AllPrintable(items: seq<Json>) {
    items == [] || (Printable(items[0]) && AllPrintable(items[1..]))
  }

  predicate MembersPrintable(members: seq<Member>) {
    members == [] || (Printable(members[0].value) && MembersPrintable(members[1..]))
  }
}
