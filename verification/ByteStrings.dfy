/** Byte strings in the order of byteacmp: byte by byte, a prefix first. */
module ByteStrings {
  import opened Bytes
  import opened Integers

  type Bytea = seq<Byte>

  predicate Le(a: Bytea, b: Bytea) {
    a == [] || (b != [] && (a[0] < b[0] || (a[0] == b[0] && Le(a[1..], b[1..]))))
  }

  predicate Lt(a: Bytea, b: Bytea) {
    !Le(b, a)
  }

  /** The length of the common prefix. */
  function Common(a: Bytea, b: Bytea): (n: nat)
    ensures n <= |a| && n <= |b|
  {
    if a == [] || b == [] || a[0] != b[0] then 0 else 1 + Common(a[1..], b[1..])
  }

  lemma {:induction false} LeTotal(a: Bytea, b: Bytea)
    ensures Le(a, b) || Le(b, a)
    ensures Le(a, b) && Le(b, a) ==> a == b
  {
    if a != [] && b != [] && a[0] == b[0] {
      LeTotal(a[1..], b[1..]);
      assert a == [a[0]] + a[1..] && b == [b[0]] + b[1..];
    }
  }

  lemma {:induction false} LeReflexive(a: Bytea)
    ensures Le(a, a)
  {
    if a != [] {
      LeReflexive(a[1..]);
    }
  }

  lemma {:induction false} LeTransitive(a: Bytea, b: Bytea, c: Bytea)
    requires Le(a, b) && Le(b, c)
    ensures Le(a, c)
  {
    if a != [] && a[0] == b[0] == c[0] {
      LeTransitive(a[1..], b[1..], c[1..]);
    }
  }

  /** The first bytes of a string. */
  function Cut(a: Bytea, n: nat): (p: Bytea)
    ensures p <= a && |p| == Min(|a|, n)
  {
    a[..Min(|a|, n)]
  }

  lemma {:induction false} PrefixLe(p: Bytea, a: Bytea)
    requires p <= a
    ensures Le(p, a) && Common(p, a) == |p|
  {
    if p != [] {
      assert p[0] == a[0] && p[1..] <= a[1..];
      PrefixLe(p[1..], a[1..]);
    }
  }

  lemma {:induction false} CommonIsPrefix(a: Bytea, b: Bytea, n: nat)
    requires n <= Common(a, b)
    ensures a[..n] == b[..n]
  {
    if 0 < n {
      CommonIsPrefix(a[1..], b[1..], n - 1);
      assert a[..n] == [a[0]] + a[1..][..n - 1] && b[..n] == [b[0]] + b[1..][..n - 1];
    }
  }

  lemma {:induction false} CommonSymmetric(a: Bytea, b: Bytea)
    ensures Common(a, b) == Common(b, a)
  {
    if a != [] && b != [] && a[0] == b[0] {
      CommonSymmetric(a[1..], b[1..]);
    }
  }

  /** Between two strings in order, the outer common prefix is the lesser of the inner ones. */
  lemma {:induction false} CommonBetween(x: Bytea, y: Bytea, z: Bytea)
    requires Le(x, y) && Le(y, z)
    ensures Common(x, z) == Min(Common(x, y), Common(y, z))
  {
    if x != [] && x[0] == y[0] == z[0] {
      CommonBetween(x[1..], y[1..], z[1..]);
    }
  }

  /** A string that agrees with b for longer than a does differs from a where b does. */
  lemma {:induction false} CommonElsewhere(a: Bytea, b: Bytea, x: Bytea)
    requires Common(a, b) < Common(b, x)
    ensures Common(a, x) == Common(a, b)
  {
    if a != [] && a[0] == b[0] {
      CommonElsewhere(a[1..], b[1..], x[1..]);
    }
  }

  lemma {:induction false} CommonOfCut(a: Bytea, n: nat, b: Bytea)
    ensures Common(Cut(a, n), b) == Min(n, Common(a, b))
  {
    if 0 < n && a != [] && b != [] && a[0] == b[0] {
      CommonOfCut(a[1..], n - 1, b[1..]);
      assert Cut(a, n)[1..] == Cut(a[1..], n - 1);
    }
  }

  lemma {:induction false} CutMonotone(a: Bytea, b: Bytea, n: nat)
    requires Le(a, b)
    ensures Le(Cut(a, n), Cut(b, n))
  {
    if 0 < n && a != [] && a[0] == b[0] {
      CutMonotone(a[1..], b[1..], n - 1);
      assert Cut(a, n)[1..] == Cut(a[1..], n - 1) && Cut(b, n)[1..] == Cut(b[1..], n - 1);
    }
  }

  /** Cutting an upper bound: what was below it is below the cut, or has the cut as a prefix. */
  lemma BelowOrExtendsCut(v: Bytea, a: Bytea, n: nat)
    requires Le(v, a)
    ensures Le(v, Cut(a, n)) || Cut(a, n) <= v
  {
    LeTotal(v, Cut(a, n));
    if Le(Cut(a, n), v) {
      BetweenPrefixAndWhole(Cut(a, n), v, a);
    }
  }

  /** Whatever lies between a prefix and the whole string has that prefix. */
  lemma {:induction false} BetweenPrefixAndWhole(p: Bytea, q: Bytea, a: Bytea)
    requires p <= a && Le(p, q) && Le(q, a)
    ensures p <= q
  {
    PrefixLe(p, a);
    CommonBetween(p, q, a);
    CommonIsPrefix(p, q, |p|);
  }

  /** Whatever is below the whole string and lacks the prefix is below the prefix. */
  lemma BelowWholeBelowPrefix(p: Bytea, q: Bytea, a: Bytea)
    requires p <= a && Le(q, a) && !(p <= q)
    ensures Le(q, p)
  {
  }

  // ---------- The lesser and the greater of two ----------

  function Lesser(a: Bytea, b: Bytea): Bytea {
    if Lt(b, a) then b else a
  }

  function Greater(a: Bytea, b: Bytea): Bytea {
    if Lt(a, b) then b else a
  }

  lemma CutOfLesser(a: Bytea, b: Bytea, n: nat)
    ensures Cut(Lesser(a, b), n) == Lesser(Cut(a, n), Cut(b, n))
  {
    hide Le, Cut;
    LeTotal(a, b);
    LeTotal(Cut(a, n), Cut(b, n));
    if Lt(b, a) {
      CutMonotone(b, a, n);
    } else {
      CutMonotone(a, b, n);
    }
  }

  lemma CutOfGreater(a: Bytea, b: Bytea, n: nat)
    ensures Cut(Greater(a, b), n) == Greater(Cut(a, n), Cut(b, n))
  {
    hide Le, Cut;
    LeTotal(a, b);
    LeTotal(Cut(a, n), Cut(b, n));
    if Lt(a, b) {
      CutMonotone(a, b, n);
    } else {
      CutMonotone(b, a, n);
    }
  }

  lemma CutOfCut(a: Bytea, m: nat, n: nat)
    requires m <= n
    ensures Cut(Cut(a, n), m) == Cut(a, m)
  {
  }

  lemma CommonOfCuts(a: Bytea, b: Bytea, n: nat)
    ensures Common(Cut(a, n), Cut(b, n)) == Min(n, Common(a, b))
  {
    hide Common, Cut;
    CommonOfCut(a, n, b);
    CommonSymmetric(Cut(a, n), b);
    CommonOfCut(b, n, Cut(a, n));
    CommonSymmetric(Cut(b, n), Cut(a, n));
  }
}
