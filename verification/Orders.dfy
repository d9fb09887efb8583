/** Lexicographic orders, as Python compares strings and tuples, and sorted sequences. */
module Orders {

  ghost predicate StrictTotal<T(!new)>(below: (T, T) -> bool) {
    && (forall x :: !below(x, x))
    && (forall x, y, z :: below(x, y) && below(y, z) ==> below(x, z))
    && (forall x, y :: below(x, y) || x == y || below(y, x))
  }

  predicate Lex<T(==)>(below: (T, T) -> bool, a: seq<T>, b: seq<T>) {
    b != [] && (a == [] || below(a[0], b[0]) || (a[0] == b[0] && Lex(below, a[1..], b[1..])))
  }

  lemma {:induction false} LexIrreflexive<T(!new)>(below: (T, T) -> bool, a: seq<T>)
    requires StrictTotal(below)
    ensures !Lex(below, a, a)
  {
    if a != [] { LexIrreflexive(below, a[1..]); }
  }

  lemma {:induction false} LexTransitive<T(!new)>(below: (T, T) -> bool, a: seq<T>, b: seq<T>, c: seq<T>)
    requires StrictTotal(below) && Lex(below, a, b) && Lex(below, b, c)
    ensures Lex(below, a, c)
  {
    if a != [] && a[0] == b[0] && b[0] == c[0] {
      LexTransitive(below, a[1..], b[1..], c[1..]);
    }
  }

  lemma {:induction false} LexConnected<T(!new)>(below: (T, T) -> bool, a: seq<T>, b: seq<T>)
    requires StrictTotal(below)
    ensures Lex(below, a, b) || a == b || Lex(below, b, a)
  {
    if a != [] && b != [] && a[0] == b[0] {
      LexConnected(below, a[1..], b[1..]);
      if a[1..] == b[1..] { assert a == [a[0]] + a[1..] && b == [b[0]] + b[1..]; }
    }
  }

  predicate CharBelow(a: char, b: char) { a < b }

  // `a < b` on strings.
  predicate TextBelow(a: string, b: string) { Lex(CharBelow, a, b) }

  // `a < b` on tuples of strings.
  predicate TupleBelow(a: seq<string>, b: seq<string>) { Lex(TextBelow, a, b) }

  // Up to the place `n` the sequences agree; there the first one ends, or has the smaller element.
  ghost predicate DiffersAt<T(!new)>(below: (T, T) -> bool, a: seq<T>, b: seq<T>, n: nat) {
    && n <= |a| && n < |b| && a[..n] == b[..n]
    && (n == |a| || below(a[n], b[n]))
  }

  /** The order of sequences: at the first place where they part, the smaller one ends or has the
      smaller element. */
  lemma {:induction false} LexExactlyWhen<T(!new)>(below: (T, T) -> bool, a: seq<T>, b: seq<T>)
    ensures Lex(below, a, b) <==> exists n: nat :: DiffersAt(below, a, b, n)
  {
    if b == [] || a == [] {
      if b != [] { assert DiffersAt(below, a, b, 0); }
    } else {
      LexExactlyWhen(below, a[1..], b[1..]);
      if Lex(below, a, b) {
        if below(a[0], b[0]) {
          assert DiffersAt(below, a, b, 0);
        } else {
          var n: nat :| DiffersAt(below, a[1..], b[1..], n);
          assert a[..n + 1] == [a[0]] + a[1..][..n] && b[..n + 1] == [b[0]] + b[1..][..n];
          assert DiffersAt(below, a, b, n + 1);
        }
      }
      forall n: nat | DiffersAt(below, a, b, n) ensures Lex(below, a, b) {
        if n > 0 {
          assert a[..n][0] == b[..n][0];
          assert a[1..][..n - 1] == a[..n][1..] && b[1..][..n - 1] == b[..n][1..];
          assert DiffersAt(below, a[1..], b[1..], n - 1);
        }
      }
    }
  }

  /** Texts are ordered by their first different character, by code point, a prefix first. */
  lemma TextBelowExactlyWhen(a: string, b: string)
    ensures TextBelow(a, b) <==> exists n ::
              && 0 <= n <= |a| && n < |b| && a[..n] == b[..n] && (n == |a| || a[n] as int < b[n] as int)
  {
    LexExactlyWhen(CharBelow, a, b);
    if TextBelow(a, b) {
      var n: nat :| DiffersAt(CharBelow, a, b, n);
      assert a[..n] == b[..n] && (n == |a| || a[n] as int < b[n] as int);
    }
    forall n | 0 <= n <= |a| && n < |b| && a[..n] == b[..n] && (n == |a| || a[n] as int < b[n] as int)
      ensures DiffersAt(CharBelow, a, b, n)
    {
    }
  }

  lemma TextTotal()
    ensures StrictTotal(TextBelow)
  {
    forall a: string { LexIrreflexive(CharBelow, a); }
    forall a: string, b: string, c: string | TextBelow(a, b) && TextBelow(b, c) { LexTransitive(CharBelow, a, b, c); }
    forall a: string, b: string { LexConnected(CharBelow, a, b); }
  }

  lemma TupleTotal()
    ensures StrictTotal(TupleBelow)
  {
    TextTotal();
    forall a: seq<string> { LexIrreflexive(TextBelow, a); }
    forall a: seq<string>, b: seq<string>, c: seq<string> | TupleBelow(a, b) && TupleBelow(b, c) {
      LexTransitive(TextBelow, a, b, c);
    }
    forall a: seq<string>, b: seq<string> { LexConnected(TextBelow, a, b); }
  }

  // Strictly ascending keys.
  ghost predicate Ascending<K(!new)>(below: (K, K) -> bool, keys: seq<K>) {
    forall i, j :: 0 <= i < j < |keys| ==> below(keys[i], keys[j])
  }

  lemma AscendingTail<K(!new)>(below: (K, K) -> bool, a: seq<K>)
    requires Ascending(below, a) && a != []
    ensures Ascending(below, a[1..])
    ensures forall k :: k in a <==> k == a[0] || k in a[1..]
    ensures forall k :: k in a[1..] ==> below(a[0], k)
  {
  }

  /** Strictly ascending sequences are equal when they have the same elements. */
  lemma {:induction false} AscendingUnique<K(!new)>(below: (K, K) -> bool, a: seq<K>, b: seq<K>)
    requires StrictTotal(below) && Ascending(below, a) && Ascending(below, b)
    requires forall k :: k in a <==> k in b
    ensures a == b
  {
    assert (a != [] ==> a[0] in a) && (b != [] ==> b[0] in b);
    if a != [] && b != [] {
      AscendingTail(below, a);
      AscendingTail(below, b);
      assert a[0] in b && b[0] in a;
      AscendingUnique(below, a[1..], b[1..]);
      assert a == [a[0]] + a[1..] && b == [b[0]] + b[1..];
    }
  }
}
