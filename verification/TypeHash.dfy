/**
 * Type hashes, computed once by the policy generator and once by the trusted header.  Both are
 * the base-129 value of the name modulo 2^64.
 */
module TypeHash {
  import opened Machine
  import opened CStrings

  const MODULUS: nat := 0x1_0000_0000_0000_0000

  function Pow129(n: nat): (r: nat)
    ensures r > 0
  {
    if n == 0 then 1 else 129 * Pow129(n - 1)
  }

  /** The sum of `name[i] * 129^(|name| - 1 - i)` over all positions. */
  function Polynomial(name: seq<Byte>): nat {
    if name == [] then 0 else name[0] * Pow129(|name| - 1) + Polynomial(name[1..])
  }

  function HashOf(name: seq<Byte>): Word {
    Polynomial(name) % MODULUS
  }

  lemma {:induction false} PolynomialAppend(name: seq<Byte>, b: Byte)
    ensures Polynomial(name + [b]) == 129 * Polynomial(name) + b
  {
    if name == [] {
      assert name + [b] == [b];
      assert Polynomial([b]) == b * Pow129(0) + Polynomial([]);
    } else {
      assert (name + [b])[0] == name[0] && (name + [b])[1..] == name[1..] + [b];
      PolynomialAppend(name[1..], b);
      Regroup(name[0], Pow129(|name| - 1));
    }
  }

  lemma Regroup(x: nat, p: nat)
    ensures x * (129 * p) == 129 * (x * p)
  {
  }

  function Next(v: nat, b: Byte): nat { 129 * v + b }

  /** A loop that reduces at every step computes the hash of the prefix it has read. */
  lemma PrefixStep(name: seq<Byte>, i: nat)
    requires i < |name|
    ensures Next(HashOf(name[..i]), name[i]) % MODULUS == HashOf(name[..i + 1])
  {
    HornerStep(name, i);
    ReducedStep(Polynomial(name[..i]), name[i]);
  }

  lemma ReducedStep(v: nat, b: Byte)
    ensures Next(v % MODULUS, b) % MODULUS == Next(v, b) % MODULUS
  {
    var q, r := v / MODULUS, v % MODULUS;
    assert Next(v, b) == Next(r, b) + MODULUS * (129 * q);
    ModUnique(Next(v, b), MODULUS, Next(r, b) / MODULUS + 129 * q, Next(r, b) % MODULUS);
  }

  lemma HornerStep(name: seq<Byte>, i: nat)
    requires i < |name|
    ensures Polynomial(name[..i + 1]) == Next(Polynomial(name[..i]), name[i])
  {
    assert name[..i + 1] == name[..i] + [name[i]];
    PolynomialAppend(name[..i], name[i]);
  }

  // ----- the mask of the generator

  lemma {:induction false} AndLowOnes(x: nat, w: nat)
    ensures BitAnd(x, Pow2(w) - 1) == x % Pow2(w)
  {
    if w == 0 {
      assert x % 1 == 0;
    } else {
      AndLowOnes(x / 2, w - 1);
      var y: nat := Pow2(w - 1) - 1;
      AndStep(x, y);
      assert Pow2(w) == 2 * (y + 1);
    }
  }

  lemma AndStep(x: nat, y: nat)
    requires BitAnd(x / 2, y) == x / 2 % (y + 1)
    ensures BitAnd(x, 2 * y + 1) == x % (2 * (y + 1))
  {
    AndOdd(x, y);
    HalveModulus(x, y + 1);
  }

  lemma AndOdd(x: nat, y: nat)
    ensures BitAnd(x, 2 * y + 1) == 2 * BitAnd(x / 2, y) + x % 2
  {
    if x > 0 {
      assert (2 * y + 1) / 2 == y && (2 * y + 1) % 2 == 1;
    }
  }

  lemma HalveModulus(x: nat, m: nat)
    requires m > 0
    ensures x % (2 * m) == 2 * (x / 2 % m) + x % 2
  {
    var q, r := x / 2 / m, x / 2 % m;
    assert x / 2 == m * q + r;
    assert x == 2 * m * q + (2 * r + x % 2);
    ModUnique(x, 2 * m, q, 2 * r + x % 2);
  }

  lemma ModUnique(x: nat, d: nat, q: nat, r: nat)
    requires r < d && x == d * q + r
    ensures x % d == r
  {
    var k := x / d - q;
    assert x % d == r - d * k;
    assert k >= 1 ==> d * k >= d;
    assert k <= -1 ==> d * k + d <= 0;
  }

  /** The generator's hash: every step is masked to 64 bits. */
  method HashType(name: seq<Byte>) returns (value: Word)
    ensures value == HashOf(name)
  {
    value := 0;
    for i := 0 to |name|
      invariant value == HashOf(name[..i])
    {
      PrefixStep(name, i);
      MaskIsMod(Next(value, name[i]));
      value := BitAnd(Next(value, name[i]), Pow2(64) - 1);
    }
    assert name[..|name|] == name;
  }

  lemma MaskIsMod(x: nat)
    ensures BitAnd(x, Pow2(64) - 1) == x % MODULUS
  {
    Pow2Is64();
    AndLowOnes(x, 64);
  }

  // ----- the wrapping loop of the runtime header

  /** `uint64_t` arithmetic wraps. */
  function Wrap(x: nat): Word { x % MODULUS }

  /** The header's hash: it walks a C string and stops at the terminator. */
  method TypeHash(mem: seq<Byte>, text: nat) returns (hash: Word)
    requires exists q :: text <= q < |mem| && mem[q] == 0
    ensures hash == HashOf(CString(mem, text))
  {
    hash := 0;
    ghost var name := CString(mem, text);
    var at := text;
    while mem[at] != 0
      invariant text <= at <= text + |name|
      invariant hash == HashOf(name[..at - text])
      decreases text + |name| - at
    {
      TextAt(mem, text, name, at);
      PrefixStep(name, at - text);
      hash := Wrap(Next(hash, mem[at]));
      at := at + 1;
    }
    TextAt(mem, text, name, at);
    assert name[..|name|] == name;
  }

  lemma TextAt(mem: seq<Byte>, text: nat, name: seq<Byte>, at: nat)
    requires StringAt(mem, text, name) && text <= at <= text + |name|
    ensures at < |mem|
    ensures mem[at] == 0 <==> at == text + |name|
    ensures at < text + |name| ==> mem[at] == name[at - text]
  {
    assert at < text + |name| ==> mem[text..text + |name|][at - text] == mem[at];
  }

  /** Where a NUL-free name stands in memory as a C string, both computations give one hash. */
  lemma HashesAgree(mem: seq<Byte>, text: nat, name: seq<Byte>)
    requires StringAt(mem, text, name)
    ensures exists q :: text <= q < |mem| && mem[q] == 0
    ensures HashOf(CString(mem, text)) == HashOf(name)
  {
    assert mem[text + |name|] == 0;
    StringIsUnique(mem, text, name, CString(mem, text));
  }

  // ----- names that cannot collide

  /** ASCII without NUL. */
  predicate Ascii(name: seq<Byte>) {
    forall i :: 0 <= i < |name| ==> 0 < name[i] < 128
  }

  lemma {:induction false} PolynomialBound(name: seq<Byte>)
    requires Ascii(name)
    ensures Polynomial(name) < Pow129(|name|)
  {
    if name != [] {
      var n := |name| - 1;
      PolynomialBound(name[..n]);
      PolynomialAppend(name[..n], name[n]);
      assert name == name[..n] + [name[n]];
    }
  }

  lemma {:induction false} PolynomialInjective(a: seq<Byte>, b: seq<Byte>)
    requires Ascii(a) && Ascii(b) && Polynomial(a) == Polynomial(b)
    ensures a == b
    decreases |a|
  {
    if a != [] {
      PolynomialAppend(a[..|a| - 1], a[|a| - 1]);
      assert a == a[..|a| - 1] + [a[|a| - 1]];
    }
    if b != [] {
      PolynomialAppend(b[..|b| - 1], b[|b| - 1]);
      assert b == b[..|b| - 1] + [b[|b| - 1]];
    }
    if a != [] && b != [] {
      PolynomialInjective(a[..|a| - 1], b[..|b| - 1]);
    }
  }

  lemma {:induction false} Pow129Grows(m: nat, n: nat)
    requires m <= n
    ensures Pow129(m) <= Pow129(n)
  {
    if m < n {
      Pow129Grows(m, n - 1);
    }
  }

  /** No two distinct ASCII names of at most nine characters share a hash. */
  lemma ShortNamesDiffer(a: seq<Byte>, b: seq<Byte>)
    requires Ascii(a) && Ascii(b) && |a| <= 9 && |b| <= 9
    ensures HashOf(a) == HashOf(b) <==> a == b
  {
    PolynomialBound(a);
    PolynomialBound(b);
    Pow129Grows(|a|, 9);
    Pow129Grows(|b|, 9);
    assert Pow129(4) == 276922881;
    assert Pow129(9) == 9892530380752880769;
    if HashOf(a) == HashOf(b) {
      PolynomialInjective(a, b);
    }
  }

  function Coded(text: string): seq<Byte>
    requires forall i :: 0 <= i < |text| ==> text[i] < 128 as char
  {
    seq(|text|, i requires 0 <= i < |text| => text[i] as nat)
  }

  /** Nine is the limit: two C identifiers of ten characters with one hash. */
  lemma TenCharactersCollide()
    ensures HashOf(Coded("aajfaaAAaa")) == HashOf(Coded("cP0AYhgzs_"))
  {
    FirstOfTwo();
    SecondOfTwo();
  }

  lemma FirstOfTwo()
    ensures Polynomial(Coded("aajfaaAAaa")) == 967077503359215233176
  {
    ValueOfTen(Coded("aajfaaAAaa"));
  }

  lemma SecondOfTwo()
    ensures Polynomial(Coded("cP0AYhgzs_")) == 967077503359215233176 + MODULUS
  {
    ValueOfTen(Coded("cP0AYhgzs_"));
  }

  lemma ValueOfTen(name: seq<Byte>)
    requires |name| == 10
    ensures Polynomial(name) ==
            Next(Next(Next(Next(Next(Next(Next(Next(Next(Next(0,
              name[0]), name[1]), name[2]), name[3]), name[4]), name[5]), name[6]), name[7]), name[8]), name[9])
  {
    Horner5(name, 0);
    Horner5(name, 5);
    assert name[..10] == name;
  }

  lemma Horner5(name: seq<Byte>, i: nat)
    requires i + 5 <= |name|
    ensures Polynomial(name[..i + 5]) ==
            Next(Next(Next(Next(Next(Polynomial(name[..i]), name[i]), name[i + 1]), name[i + 2]), name[i + 3]),
                 name[i + 4])
  {
    HornerStep(name, i);
    HornerStep(name, i + 1);
    HornerStep(name, i + 2);
    HornerStep(name, i + 3);
    HornerStep(name, i + 4);
  }

  /** ASCII is needed too: `a` and a micro sign in UTF-8 hash like the name `bB4`. */
  lemma AccentsCollide()
    ensures HashOf([0x61, 0xC2, 0xB5]) == HashOf(Coded("bB4"))
  {
    Horner3(0x61, 0xC2, 0xB5);
    Horner3(0x62, 0x42, 0x34);
    assert Coded("bB4") == [0x62, 0x42, 0x34];
  }

  lemma Horner3(x: Byte, y: Byte, z: Byte)
    ensures Polynomial([x, y, z]) == Next(Next(Next(0, x), y), z)
  {
    HornerStep([x, y, z], 0);
    HornerStep([x, y, z], 1);
    HornerStep([x, y, z], 2);
    assert [x, y, z][..3] == [x, y, z];
  }
}
