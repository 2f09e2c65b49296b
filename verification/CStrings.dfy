/** NUL-terminated strings in byte memory. */
module CStrings {
  import opened Machine

  /** `mem[p..]` starts with the bytes of `text`, then a NUL. */
  ghost predicate StringAt(mem: seq<Byte>, p: nat, text: seq<Byte>) {
    && p + |text| < |mem|
    && mem[p..p + |text|] == text
    && mem[p + |text|] == 0
    && 0 !in text
  }

  /** `strlen`: the string starting at `p`, which must be terminated inside memory. */
  function CString(mem: seq<Byte>, p: nat): (text: seq<Byte>)
    requires exists q :: p <= q < |mem| && mem[q] == 0
    ensures StringAt(mem, p, text)
    decreases |mem| - p
  {
    if mem[p] == 0 then []
    else
      assert exists q :: p + 1 <= q < |mem| && mem[q] == 0;
      var rest := CString(mem, p + 1);
      assert mem[p..p + 1 + |rest|] == [mem[p]] + rest;
      [mem[p]] + rest
  }

  lemma StringIsUnique(mem: seq<Byte>, p: nat, a: seq<Byte>, b: seq<Byte>)
    requires StringAt(mem, p, a) && StringAt(mem, p, b)
    ensures a == b
  {
    assert forall i :: 0 <= i < |a| ==> a[i] == mem[p..p + |a|][i] == mem[p + i];
    assert forall i :: 0 <= i < |b| ==> b[i] == mem[p..p + |b|][i] == mem[p + i];
    assert forall i :: 0 <= i < |a| ==> a[i] != 0;
    assert forall i :: 0 <= i < |b| ==> b[i] != 0;
  }
}
