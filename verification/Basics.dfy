/** Types shared by the components. */
module Basics {

  type byte = x: int | 0 <= x < 256

  datatype Option<+T> = None | Some(value: T)

  /** Return codes of the nginx API that this module uses. */
  datatype Rc = OK | AGAIN | DECLINED | ERROR

  /** The unsigned 64-bit counters of the module wrap here. */
  const TWO64: nat := 0x1_0000_0000_0000_0000

  function Flatten<T>(parts: seq<seq<T>>): seq<T> {
    if parts == [] then [] else parts[0] + Flatten(parts[1..])
  }

  lemma FlattenFirst<T>(parts: seq<seq<T>>)
    requires parts != []
    ensures Flatten(parts) == parts[0] + Flatten(parts[1..])
  {
  }

  lemma {:induction false} FlattenLast<T>(parts: seq<seq<T>>)
    requires parts != []
    ensures Flatten(parts) == Flatten(parts[..|parts| - 1]) + parts[|parts| - 1]
  {
    var first, rest, last := parts[0], parts[1..], parts[|parts| - 1];
    if rest == [] {
      assert parts[..0] == [] && first + [] == first;
    } else {
      var front := parts[..|parts| - 1];
      FlattenLast(rest);
      assert rest[..|rest| - 1] == front[1..];
      hide Flatten;
      FlattenFirst(front);
      FlattenFirst(parts);
      assert first + (Flatten(front[1..]) + last) == (first + Flatten(front[1..])) + last;
    }
  }

  lemma Slices<T>(s: seq<T>, a: nat, b: nat, c: nat)
    requires a <= b <= c <= |s|
    ensures s[a..][..b - a] == s[a..b] == s[a..c][..b - a]
  {
  }

  lemma TailSlice<T>(a: seq<T>, b: seq<T>, i: nat, j: nat)
    requires i <= j <= |b|
    ensures (a + b)[|a| + i..|a| + j] == b[i..j]
  {
  }

  lemma MulStep(d: nat, a: int, b: int)
    requires a < b
    ensures d * a + d <= d * b
  {
    var k: nat := b - a - 1;
    assert d * k >= 0;
    assert d * b == d * (a + 1 + k) == d * a + d + d * k;
  }

  lemma DivUnique(x: int, d: nat, q: int, r: int)
    requires d > 0 && x == d * q + r && 0 <= r < d
    ensures x % d == r && x / d == q
  {
    var p := x / d;
    assert x == d * p + x % d;
    if p < q {
      MulStep(d, p, q);
    } else if q < p {
      MulStep(d, q, p);
    }
  }

  /** Reducing a summand first changes nothing modulo `d`. */
  lemma ModAdd(a: int, b: int, d: nat)
    requires d > 0
    ensures (a % d + b) % d == (a + b) % d
  {
    var c := a % d + b;
    assert a == d * (a / d) + a % d && c == d * (c / d) + c % d;
    assert a + b == d * (a / d + c / d) + c % d;
    DivUnique(a + b, d, a / d + c / d, c % d);
  }
}
