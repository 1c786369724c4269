/** `strlen`, `strcpy` and `cJSON_strdup` on buffers that hold texts. What is
    read must not have been freed. */
module CStrings {
  import opened Bytes
  import opened Memory

  method StrLen(mem: Heap, a: array<Byte>, ghost s: Text) returns (n: nat)
    requires a in mem.live && Holds(a, s)
    ensures n == |s|
  {
    n := 0;
    while a[n] != 0
      invariant n <= |s|
      decreases |s| - n
    {
      assert a[n] == a[..|s|][n];
      n := n + 1;
    }
  }

  // Copies `s` and its terminator to place `at` of `d`.
  method StrCpy(mem: Heap, d: array<Byte>, at: nat, a: array<Byte>, ghost s: Text)
    requires a in mem.live && Holds(a, s) && a != d && at + |s| < d.Length
    modifies d
    ensures d[at..at + |s|] == s && d[at + |s|] == 0
    ensures d[..at] == old(d[..at])
  {
    var n := 0;
    while a[n] != 0
      invariant n <= |s| && d[at..at + n] == s[..n] && d[..at] == old(d[..at])
      decreases |s| - n
    {
      assert a[n] == a[..|s|][n];
      d[at + n] := a[n];
      n := n + 1;
      assert d[at..at + n] == d[at..at + n - 1] + [d[at + n - 1]];
    }
    d[at + n] := 0;
  }

  method StrDup(mem: Heap, a: array<Byte>, ghost s: Text) returns (copy: array<Byte>)
    requires a in mem.live && Holds(a, s)
    modifies mem
    ensures fresh(copy) && Holds(copy, s) && copy.Length == |s| + 1
    ensures mem.live == old(mem.live) + {copy}
  {
    var n := StrLen(mem, a, s);
    copy := mem.Malloc(n + 1);
    StrCpy(mem, copy, 0, a, s);
    assert copy[..|s|] == copy[0..|s|];
  }
}
