/** The JSON value a tree of nodes stands for. */
module NodeMeaning {
  import opened Bytes
  import opened JsonValues
  import opened Nodes

  function TextOf(s: Str): Text {
    match s
    case Absent => []
    case Present(_, text) => text
  }

  function Meaning(t: Tree): Json
    decreases t, 0
  {
    match t.kind
    case KindNull => Null
    case KindFalse => False
    case KindTrue => True
    case KindNumber => Number(t.valuedouble)
    case KindString => String(TextOf(t.value))
    case KindArray => Array(Items(t.kids))
    case KindObject => Object(Members(t.kids))
  }

  function Items(ts: seq<Tree>): (js: seq<Json>)
    ensures |js| == |ts|
    decreases ts, 0
  {
    if ts == [] then [] else [Meaning(ts[0])] + Items(ts[1..])
  }

  function Members(ts: seq<Tree>): (ms: seq<Member>)
    ensures |ms| == |ts|
    decreases ts, 0
  {
    if ts == [] then [] else [Member(TextOf(ts[0].name), Meaning(ts[0]))] + Members(ts[1..])
  }

  lemma {:induction false} ItemsJoin(a: seq<Tree>, b: seq<Tree>)
    ensures Items(a + b) == Items(a) + Items(b)
  {
    if a == [] {
      assert a + b == b;
    } else {
      ItemsJoin(a[1..], b);
      assert (a + b)[1..] == a[1..] + b && (a + b)[0] == a[0];
      assert Items(a + b) == [Meaning(a[0])] + (Items(a[1..]) + Items(b));
    }
  }

  lemma {:induction false} MembersJoin(a: seq<Tree>, b: seq<Tree>)
    ensures Members(a + b) == Members(a) + Members(b)
  {
    if a == [] {
      assert a + b == b;
    } else {
      MembersJoin(a[1..], b);
      assert (a + b)[1..] == a[1..] + b && (a + b)[0] == a[0];
      assert Members(a + b) == [Member(TextOf(a[0].name), Meaning(a[0]))] + (Members(a[1..]) + Members(b));
    }
  }

  lemma ItemsAppend(ts: seq<Tree>, x: Tree)
    ensures Items(ts + [x]) == Items(ts) + [Meaning(x)]
    ensures Members(ts + [x]) == Members(ts) + [Member(TextOf(x.name), Meaning(x))]
  {
    ItemsJoin(ts, [x]);
    MembersJoin(ts, [x]);
    assert Items([x]) == [Meaning(x)];
    assert Members([x]) == [Member(TextOf(x.name), Meaning(x))];
  }
}
