/** What equal checksums mean: the framed byte stream determines its texts, and the texts
    of a column determine its sorted keys and cells. */
module Framing {
  import opened Models
  import Orders
  import opened Bytes
  import opened Canonical

  // SHA-256 and UTF-8 send different inputs to different outputs.
  ghost predicate Faithful(lib: Library) {
    && (forall a, b :: lib.sha256(a) == lib.sha256(b) ==> a == b)
    && (forall a, b :: lib.utf8(a) == lib.utf8(b) ==> a == b)
  }

  function WideChar(c: char): (b: seq<Byte>)
    ensures |b| == 3
  {
    [c as int / 0x1_0000, c as int / 0x100 % 0x100, c as int % 0x100]
  }

  lemma WideCharIsInjective(c: char, d: char)
    requires WideChar(c)[0] == WideChar(d)[0] && WideChar(c)[1] == WideChar(d)[1] && WideChar(c)[2] == WideChar(d)[2]
    ensures c == d
  {
    ThreeBytes(c as int);
    ThreeBytes(d as int);
  }

  lemma ThreeBytes(n: nat)
    ensures n == 0x1_0000 * (n / 0x1_0000) + 0x100 * (n / 0x100 % 0x100) + n % 0x100
  {
  }

  // Three bytes for every character.
  function Wide(s: string): (b: seq<Byte>)
    ensures |b| == 3 * |s| && forall i :: 0 <= i < |b| ==> b[i] == WideChar(s[i / 3])[i % 3]
  {
    seq(3 * |s|, i requires 0 <= i < 3 * |s| => WideChar(s[i / 3])[i % 3])
  }

  function AsChars(b: seq<Byte>): (s: string)
    ensures |s| == |b| && forall i :: 0 <= i < |b| ==> s[i] == b[i] as char
  {
    seq(|b|, i requires 0 <= i < |b| => b[i] as char)
  }

  lemma WideIsInjective(a: string, b: string)
    requires Wide(a) == Wide(b)
    ensures a == b
  {
    forall i | 0 <= i < |a| ensures a[i] == b[i] {
      assert Wide(a)[3 * i] == WideChar(a[i])[0] && Wide(b)[3 * i] == WideChar(b[i])[0];
      assert Wide(a)[3 * i + 1] == WideChar(a[i])[1] && Wide(b)[3 * i + 1] == WideChar(b[i])[1];
      assert Wide(a)[3 * i + 2] == WideChar(a[i])[2] && Wide(b)[3 * i + 2] == WideChar(b[i])[2];
      WideCharIsInjective(a[i], b[i]);
    }
  }

  // The assumption can be met.
  lemma FaithfulLibrariesExist(nfc: string -> string)
    ensures Faithful(Library(nfc, Wide, AsChars))
  {
    var lib := Library(nfc, Wide, AsChars);
    forall a, b | lib.sha256(a) == lib.sha256(b) ensures a == b {
      assert forall i :: 0 <= i < |a| ==> AsChars(a)[i] == a[i] as char;
      assert forall i :: 0 <= i < |b| ==> AsChars(b)[i] == b[i] as char;
    }
    forall a, b | lib.utf8(a) == lib.utf8(b) ensures a == b { WideIsInjective(a, b); }
  }

  lemma FramedSnoc(lib: Library, s: seq<string>, x: string)
    ensures Framed(lib, s + [x]).Some? <==> Framed(lib, s).Some? && Frame(lib.utf8(x)).Some?
    ensures Framed(lib, s + [x]).Some? ==>
              Framed(lib, s + [x]).value == Framed(lib, s).value + Frame(lib.utf8(x)).value
  {
    assert (s + [x])[..|s|] == s;
  }

  lemma Associative<T>(a: seq<T>, b: seq<T>, c: seq<T>)
    ensures (a + b) + c == a + (b + c)
  {
  }

  lemma {:induction false} FramedCons(lib: Library, x: string, rest: seq<string>)
    ensures Framed(lib, [x] + rest).Some? <==> Frame(lib.utf8(x)).Some? && Framed(lib, rest).Some?
    ensures Framed(lib, [x] + rest).Some? ==>
              Framed(lib, [x] + rest).value == Frame(lib.utf8(x)).value + Framed(lib, rest).value
  {
    if rest == [] {
      assert [x] + rest == [x] && [x][..0] == [];
    } else {
      var front, last := rest[..|rest| - 1], rest[|rest| - 1];
      FramedCons(lib, x, front);
      FramedSnoc(lib, front, last);
      FramedSnoc(lib, [x] + front, last);
      assert rest == front + [last] && [x] + rest == ([x] + front) + [last];
      if Framed(lib, [x] + rest).Some? {
        Associative(Frame(lib.utf8(x)).value, Framed(lib, front).value, Frame(lib.utf8(last)).value);
      }
    }
  }

  lemma FrameSplits(a: seq<Byte>, b: seq<Byte>, p: seq<Byte>, q: seq<Byte>)
    requires Frame(a).Some? && Frame(b).Some? && Frame(a).value + p == Frame(b).value + q
    ensures a == b && p == q
  {
    var x, y := Frame(a).value + p, Frame(b).value + q;
    assert x[..8] == ToBytes(|a|, 8) && y[..8] == ToBytes(|b|, 8);
    BytesRoundTrip(|a|, 8);
    BytesRoundTrip(|b|, 8);
    assert x[8..8 + |a|] == a && y[8..8 + |b|] == b;
    assert x[8 + |a|..] == p && y[8 + |b|..] == q;
  }

  /** The length-prefixed stream is injective: no two lists of texts give one stream. */
  lemma {:induction false} FramesAreInjective(lib: Library, a: seq<string>, b: seq<string>)
    requires Faithful(lib) && Framed(lib, a).Some? && Framed(lib, a) == Framed(lib, b)
    ensures a == b
    decreases |a|
  {
    if a == [] || b == [] {
      if a != [] { FramedNonEmpty(lib, a); }
      if b != [] { FramedNonEmpty(lib, b); }
    } else {
      assert a == [a[0]] + a[1..] && b == [b[0]] + b[1..];
      FramedCons(lib, a[0], a[1..]);
      FramedCons(lib, b[0], b[1..]);
      FrameSplits(lib.utf8(a[0]), lib.utf8(b[0]), Framed(lib, a[1..]).value, Framed(lib, b[1..]).value);
      FramesAreInjective(lib, a[1..], b[1..]);
    }
  }

  lemma FramedNonEmpty(lib: Library, a: seq<string>)
    requires a != [] && Framed(lib, a).Some?
    ensures Framed(lib, a).value != []
  {
  }

  // ---- from texts back to rows ---------------------------------------------------------------

  // Every key has one text per key column.
  ghost predicate KeyWidth(rows: seq<KeyedRow>, m: nat) {
    forall i :: 0 <= i < |rows| ==> |rows[i].key| == m
  }

  // The sorted rows read alike in one column.
  ghost predicate AlikeIn(lib: Library, a: seq<KeyedRow>, b: seq<KeyedRow>, column: ColumnRule) {
    && |a| == |b|
    && forall i :: 0 <= i < |a| ==> a[i].key == b[i].key && Cell(lib, a[i].row, column) == Cell(lib, b[i].row, column)
  }

  lemma {:induction false} TextsLength(lib: Library, rows: seq<KeyedRow>, column: ColumnRule, m: nat)
    requires KeyWidth(rows, m) && Texts(lib, rows, column).Some?
    ensures |Texts(lib, rows, column).value| == |rows| * (m + 1)
  {
    if rows != [] {
      TextsLength(lib, rows[..|rows| - 1], column, m);
      assert |rows| * (m + 1) == (|rows| - 1) * (m + 1) + (m + 1);
    }
  }

  lemma LastBlock(x: seq<string>, y: seq<string>, k: seq<string>, l: seq<string>, c: string, d: string)
    requires |k| == |l| && x + (k + [c]) == y + (l + [d])
    ensures x == y && k == l && c == d
  {
    var s, t := x + (k + [c]), y + (l + [d]);
    assert |x| == |y|;
    assert s[..|x|] == x && t[..|y|] == y;
    assert s[|x|..|x| + |k|] == k && t[|y|..|y| + |l|] == l;
    assert s[|x| + |k|] == c && t[|y| + |l|] == d;
  }

  lemma {:induction false} TextsDecide(lib: Library, a: seq<KeyedRow>, b: seq<KeyedRow>, column: ColumnRule, m: nat)
    requires KeyWidth(a, m) && KeyWidth(b, m)
    requires Texts(lib, a, column).Some? && Texts(lib, a, column) == Texts(lib, b, column)
    ensures AlikeIn(lib, a, b, column)
    decreases |a|
  {
    TextsLength(lib, a, column, m);
    TextsLength(lib, b, column, m);
    SameProduct(|a|, |b|, m + 1);
    if a != [] {
      var n := |a| - 1;
      LastBlock(Texts(lib, a[..n], column).value, Texts(lib, b[..n], column).value, a[n].key, b[n].key,
                Cell(lib, a[n].row, column).value, Cell(lib, b[n].row, column).value);
      TextsDecide(lib, a[..n], b[..n], column, m);
      forall i | 0 <= i < |a|
        ensures a[i].key == b[i].key && Cell(lib, a[i].row, column) == Cell(lib, b[i].row, column)
      {
        if i < n { assert a[..n][i] == a[i] && b[..n][i] == b[i]; }
      }
    }
  }

  lemma SameProduct(x: nat, y: nat, p: nat)
    requires p >= 1 && x * p == y * p
    ensures x == y
  {
  }

  lemma {:induction false} AlikeTexts(lib: Library, a: seq<KeyedRow>, b: seq<KeyedRow>, column: ColumnRule)
    requires AlikeIn(lib, a, b, column)
    ensures Texts(lib, a, column) == Texts(lib, b, column)
    decreases |a|
  {
    if a != [] {
      var n := |a| - 1;
      assert forall i :: 0 <= i < n ==> a[..n][i] == a[i] && b[..n][i] == b[i];
      AlikeTexts(lib, a[..n], b[..n], column);
    }
  }

  // ---- sorting keeps what the rows are ----------------------------------------------------------

  lemma {:induction false} InsertKeeps(x: KeyedRow, s: seq<KeyedRow>)
    ensures |Insert(x, s)| == |s| + 1
    ensures multiset(Insert(x, s)) == multiset(s) + multiset{x}
  {
    if s != [] && Orders.TupleBelow(x.key, s[|s| - 1].key) {
      InsertKeeps(x, s[..|s| - 1]);
      assert s == s[..|s| - 1] + [s[|s| - 1]];
    }
  }

  lemma KeepsStep(front: seq<KeyedRow>, x: KeyedRow, sorted: seq<KeyedRow>)
    requires |sorted| == |front| && multiset(sorted) == multiset(front)
    ensures |Insert(x, sorted)| == |front| + 1 && multiset(Insert(x, sorted)) == multiset(front + [x])
  {
    InsertKeeps(x, sorted);
  }

  // `sorted` holds the rows of `s`.
  ghost predicate Holds(sorted: seq<KeyedRow>, s: seq<KeyedRow>) { |sorted| == |s| && multiset(sorted) == multiset(s) }

  lemma {:induction false} SortedHolds(s: seq<KeyedRow>, n: nat)
    requires n <= |s|
    ensures Holds(Sorted(s[..n]), s[..n])
  {
    if n > 0 {
      SortedHolds(s, n - 1);
      assert s[..n] == s[..n - 1] + [s[n - 1]];
      HoldsStep(s[..n - 1], s[n - 1]);
    }
  }

  lemma HoldsStep(front: seq<KeyedRow>, x: KeyedRow)
    requires Holds(Sorted(front), front)
    ensures Holds(Sorted(front + [x]), front + [x])
  {
    assert (front + [x])[..|front|] == front;
    KeepsStep(front, x, Sorted(front));
  }

  lemma SortedKeeps(s: seq<KeyedRow>)
    ensures |Sorted(s)| == |s| && multiset(Sorted(s)) == multiset(s)
  {
    SortedHolds(s, |s|);
    assert s[..|s|] == s;
  }

  // A text whose UTF-8 length fits the eight bytes of its frame.
  ghost predicate Framable(lib: Library, text: string) { |lib.utf8(text)| < 0x1_0000_0000_0000_0000 }

  ghost predicate AllFramable(lib: Library, texts: seq<string>) { forall t :: t in texts ==> Framable(lib, t) }

  lemma FramableTogether(lib: Library, a: seq<string>, b: seq<string>)
    ensures AllFramable(lib, a + b) <==> AllFramable(lib, a) && AllFramable(lib, b)
  {
    assert forall t :: t in a || t in b ==> t in a + b;
  }

  lemma {:induction false} FramedExactlyWhen(lib: Library, texts: seq<string>)
    ensures Framed(lib, texts).Some? <==> AllFramable(lib, texts)
  {
    if texts != [] {
      var front, last := texts[..|texts| - 1], texts[|texts| - 1];
      assert texts == front + [last];
      EightBytes();
      FramedExactlyWhen(lib, front);
      FramedSnoc(lib, front, last);
      FramableTogether(lib, front, [last]);
      assert AllFramable(lib, [last]) <==> Framable(lib, last) by { assert last in [last]; }
    }
  }

  lemma EightBytes()
    ensures Pow256(8) == 0x1_0000_0000_0000_0000
  {
    assert Pow256(4) == 0x1_0000_0000;
    assert Pow256(8) == 256 * 256 * 256 * 256 * Pow256(4);
  }

  ghost predicate KeyedFramable(lib: Library, r: KeyedRow, column: ColumnRule) {
    Cell(lib, r.row, column).Some? && AllFramable(lib, r.key + [Cell(lib, r.row, column).value])
  }

  ghost predicate AllKeyedFramable(lib: Library, rows: seq<KeyedRow>, column: ColumnRule) {
    forall r :: r in rows ==> KeyedFramable(lib, r, column)
  }

  lemma KeyedTogether(lib: Library, front: seq<KeyedRow>, last: KeyedRow, column: ColumnRule)
    ensures AllKeyedFramable(lib, front + [last], column)
       <==> AllKeyedFramable(lib, front, column) && KeyedFramable(lib, last, column)
  {
    assert last in front + [last] && forall r :: r in front ==> r in front + [last];
  }

  lemma {:induction false} TextsFramable(lib: Library, rows: seq<KeyedRow>, column: ColumnRule)
    ensures Texts(lib, rows, column).Some? && AllFramable(lib, Texts(lib, rows, column).value)
       <==> AllKeyedFramable(lib, rows, column)
  {
    if rows != [] {
      var front, last := rows[..|rows| - 1], rows[|rows| - 1];
      assert rows == front + [last];
      TextsFramable(lib, front, column);
      if Texts(lib, rows, column).Some? {
        FramableTogether(lib, Texts(lib, front, column).value, last.key + [Cell(lib, last.row, column).value]);
      }
      KeyedTogether(lib, front, last, column);
    }
  }

  // A row can be fed to the digest of a column.
  ghost predicate Feedable(lib: Library, r: Row, column: ColumnRule, keys: seq<ColumnRule>) {
    && Cells(lib, r, keys).Some? && Cell(lib, r, column).Some?
    && AllFramable(lib, Cells(lib, r, keys).value + [Cell(lib, r, column).value])
  }

  // The sorted rows of one side, or nothing if a key cannot be read.
  function SortedRows(lib: Library, rows: seq<Row>, keys: seq<ColumnRule>): Option<seq<KeyedRow>> {
    match WithKeys(lib, rows, keys)
    case None => None
    case Some(keyed) => Some(Sorted(keyed))
  }

  lemma SortedRowsAre(lib: Library, rows: seq<Row>, keys: seq<ColumnRule>)
    requires SortedRows(lib, rows, keys).Some?
    ensures var s := SortedRows(lib, rows, keys).value;
            && |s| == |rows| && KeyWidth(s, |keys|)
            && multiset(s) == multiset(WithKeys(lib, rows, keys).value)
            && forall i :: 0 <= i < |s| ==> s[i].row in rows && Cells(lib, s[i].row, keys) == Some(s[i].key)
  {
    var keyed := WithKeys(lib, rows, keys).value;
    SortedKeeps(keyed);
    var s := Sorted(keyed);
    forall i | 0 <= i < |s| ensures s[i].row in rows && Cells(lib, s[i].row, keys) == Some(s[i].key) {
      assert s[i] in multiset(s);
      KeyedRowIs(lib, rows, keys, s[i]);
    }
    assert forall i :: 0 <= i < |s| ==> |s[i].key| == |keys|;
  }

  lemma KeyedRowIs(lib: Library, rows: seq<Row>, keys: seq<ColumnRule>, r: KeyedRow)
    requires WithKeys(lib, rows, keys).Some? && r in WithKeys(lib, rows, keys).value
    ensures r.row in rows && Cells(lib, r.row, keys) == Some(r.key)
  {
  }

  /** Equal checksums of a column: both sides have as many rows, and sorted by key they
      agree, row by row, in key and cell. */
  lemma ChecksumDecides(lib: Library, a: seq<Row>, b: seq<Row>, column: ColumnRule, keys: seq<ColumnRule>)
    requires Faithful(lib) && Checksum(lib, a, column, keys).Some?
    requires Checksum(lib, a, column, keys) == Checksum(lib, b, column, keys)
    ensures SortedRows(lib, a, keys).Some? && SortedRows(lib, b, keys).Some?
    ensures AlikeIn(lib, SortedRows(lib, a, keys).value, SortedRows(lib, b, keys).value, column)
    ensures Texts(lib, SortedRows(lib, a, keys).value, column).Some?
  {
    var x, y := SortedRows(lib, a, keys).value, SortedRows(lib, b, keys).value;
    FramesAreInjective(lib, Texts(lib, x, column).value, Texts(lib, y, column).value);
    SortedRowsAre(lib, a, keys);
    SortedRowsAre(lib, b, keys);
    TextsDecide(lib, x, y, column, |keys|);
  }

  /** Conversely, agreeing rows have equal checksums. */
  lemma AlikeChecksums(lib: Library, a: seq<Row>, b: seq<Row>, column: ColumnRule, keys: seq<ColumnRule>)
    requires SortedRows(lib, a, keys).Some? && SortedRows(lib, b, keys).Some?
    requires AlikeIn(lib, SortedRows(lib, a, keys).value, SortedRows(lib, b, keys).value, column)
    ensures Checksum(lib, a, column, keys) == Checksum(lib, b, column, keys)
  {
    AlikeTexts(lib, SortedRows(lib, a, keys).value, SortedRows(lib, b, keys).value, column);
  }

  /** A column has a checksum exactly when every row has canonical texts for its key and its cell,
      none of them too long for its frame. */
  lemma ChecksumExactlyWhen(lib: Library, rows: seq<Row>, column: ColumnRule, keys: seq<ColumnRule>)
    ensures Checksum(lib, rows, column, keys).Some? <==> forall r :: r in rows ==> Feedable(lib, r, column, keys)
  {
    match WithKeys(lib, rows, keys)
    case Some(keyed) =>
      SortedKeeps(keyed);
      KeyedRows(lib, rows, keyed, Sorted(keyed), column, keys);
      StreamExactlyWhen(lib, Sorted(keyed), column);
      ChecksumOfSorted(lib, rows, keyed, column, keys);
    case None =>
      var i :| 0 <= i < |rows| && Cells(lib, rows[i], keys).None?;
      assert rows[i] in rows && !Feedable(lib, rows[i], column, keys);
  }

  lemma ChecksumOfSorted(lib: Library, rows: seq<Row>, keyed: seq<KeyedRow>, column: ColumnRule, keys: seq<ColumnRule>)
    requires WithKeys(lib, rows, keys) == Some(keyed)
    ensures Checksum(lib, rows, column, keys).Some?
       <==> Texts(lib, Sorted(keyed), column).Some? && Framed(lib, Texts(lib, Sorted(keyed), column).value).Some?
  {
  }

  lemma StreamExactlyWhen(lib: Library, sorted: seq<KeyedRow>, column: ColumnRule)
    ensures Texts(lib, sorted, column).Some? && Framed(lib, Texts(lib, sorted, column).value).Some?
       <==> AllKeyedFramable(lib, sorted, column)
  {
    TextsFramable(lib, sorted, column);
    if Texts(lib, sorted, column).Some? { FramedExactlyWhen(lib, Texts(lib, sorted, column).value); }
  }

  lemma KeyedRows(lib: Library, rows: seq<Row>, keyed: seq<KeyedRow>, sorted: seq<KeyedRow>, column: ColumnRule,
                  keys: seq<ColumnRule>)
    requires WithKeys(lib, rows, keys) == Some(keyed) && multiset(sorted) == multiset(keyed)
    ensures AllKeyedFramable(lib, sorted, column)
       <==> forall r :: r in rows ==> Feedable(lib, r, column, keys)
  {
    forall i | 0 <= i < |rows| ensures KeyedFramable(lib, keyed[i], column) <==> Feedable(lib, rows[i], column, keys) {
      assert keyed[i].row == rows[i];
    }
    if AllKeyedFramable(lib, sorted, column) {
      forall r | r in rows ensures Feedable(lib, r, column, keys) {
        var i :| 0 <= i < |rows| && rows[i] == r;
        assert keyed[i] in multiset(keyed) && keyed[i] in multiset(sorted);
      }
    }
    if forall r :: r in rows ==> Feedable(lib, r, column, keys) {
      forall r | r in sorted ensures KeyedFramable(lib, r, column) {
        assert r in multiset(sorted) && r in multiset(keyed);
        var i :| 0 <= i < |keyed| && keyed[i] == r;
        assert rows[i] in rows;
      }
    }
  }
}
