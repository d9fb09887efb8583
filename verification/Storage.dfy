/** Object keys of the silver layer (src/millrace/streaming/storage.py): path components are
    percent-encoded (sections 2.1 and 2.3 of RFC 3986), and a listing by prefix finds the
    objects of one run and one entity only. */
module Storage {
  import opened Models
  import Bytes
  import opened CdcState

  // Unreserved characters; everything else is percent-encoded.
  predicate Unreserved(b: int) {
    || 'A' as int <= b <= 'Z' as int || 'a' as int <= b <= 'z' as int || '0' as int <= b <= '9' as int
    || b == '-' as int || b == '_' as int || b == '.' as int || b == '~' as int
  }

  function HexDigit(n: nat): (c: char)
    requires n < 16
  {
    if n < 10 then ('0' as int + n) as char else ('A' as int + (n - 10)) as char
  }

  function HexValue(c: char): Option<nat> {
    if '0' <= c <= '9' then Some(c as int - '0' as int)
    else if 'A' <= c <= 'F' then Some(c as int - 'A' as int + 10)
    else None
  }

  function QuotedByte(b: Bytes.Byte): string {
    if Unreserved(b) then [b as char] else ['%', HexDigit(b / 16), HexDigit(b % 16)]
  }

  // urllib.parse.quote, on the UTF-8 bytes
  function Quoted(bytes: seq<Bytes.Byte>): string {
    if bytes == [] then "" else QuotedByte(bytes[0]) + Quoted(bytes[1..])
  }

  // urllib.parse.unquote_to_bytes, for texts quote can produce
  function Unquoted(s: string): Option<seq<Bytes.Byte>>
    decreases |s|
  {
    if s == "" then Some([])
    else if s[0] != '%' then
      if s[0] as int >= 256 then None
      else
        match Unquoted(s[1..])
        case None => None
        case Some(rest) => Some([s[0] as int] + rest)
    else if |s| < 3 || HexValue(s[1]).None? || HexValue(s[2]).None? then None
    else
      match Unquoted(s[3..])
      case None => None
      case Some(rest) => Some([16 * HexValue(s[1]).value + HexValue(s[2]).value] + rest)
  }

  /** Percent-encoding is undone by decoding. */
  lemma {:induction false} QuotingIsInvertible(bytes: seq<Bytes.Byte>)
    ensures Unquoted(Quoted(bytes)) == Some(bytes)
  {
    if bytes != [] {
      QuotingIsInvertible(bytes[1..]);
      UnquotedByte(bytes[0], Quoted(bytes[1..]), bytes[1..]);
      assert bytes == [bytes[0]] + bytes[1..];
    }
  }

  predicate Plain(c: char) {
    'a' <= c <= 'z' || 'A' <= c <= 'Z' || '0' <= c <= '9' || c == '-' || c == '_' || c == '.' || c == '~'
  }

  /** Letters, digits and the four marks stand for themselves; every other byte becomes a percent
      sign and two hexadecimal digits. */
  lemma QuotedByteIs(b: Bytes.Byte)
    ensures QuotedByte(b) == [b as char] <==> Plain(b as char)
    ensures !Plain(b as char) ==>
              |QuotedByte(b)| == 3 && QuotedByte(b)[0] == '%'
              && HexValue(QuotedByte(b)[1]) == Some(b / 16) && HexValue(QuotedByte(b)[2]) == Some(b % 16)
  {
  }

  /** So a component of such characters is its own quotation. */
  lemma {:induction false} PlainTextsStay(bytes: seq<Bytes.Byte>)
    requires forall b :: b in bytes ==> Plain(b as char)
    ensures |Quoted(bytes)| == |bytes| && forall i :: 0 <= i < |bytes| ==> Quoted(bytes)[i] as int == bytes[i]
  {
    if bytes != [] {
      assert bytes[0] in bytes && forall b :: b in bytes[1..] ==> b in bytes;
      QuotedByteIs(bytes[0]);
      PlainTextsStay(bytes[1..]);
    }
  }

  lemma UnquotedByte(b: Bytes.Byte, tail: string, rest: seq<Bytes.Byte>)
    requires Unquoted(tail) == Some(rest)
    ensures Unquoted(QuotedByte(b) + tail) == Some([b] + rest)
  {
    var s := QuotedByte(b) + tail;
    if Unreserved(b) {
      assert s[1..] == tail && s[0] == b as char;
    } else {
      assert s[3..] == tail && s[1] == HexDigit(b / 16) && s[2] == HexDigit(b % 16);
    }
  }

  lemma {:induction false} NoSlashes(bytes: seq<Bytes.Byte>)
    ensures '/' !in Quoted(bytes)
  {
    if bytes != [] {
      NoSlashes(bytes[1..]);
      assert '/' !in QuotedByte(bytes[0]);
    }
  }

  // Given: str.strip and UTF-8.
  datatype TextTools = TextTools(strip: string -> string, utf8: string -> seq<Bytes.Byte>)

  // stable_component; None for its ValueError
  function StableComponent(tools: TextTools, value: string): Option<string> {
    if tools.strip(value) == "" then None else Some(Quoted(tools.utf8(tools.strip(value))))
  }

  ghost predicate Injective(tools: TextTools) { forall a, b :: tools.utf8(a) == tools.utf8(b) ==> a == b }

  /** A text has a component exactly when stripping leaves something of it, and components are
      equal exactly when the stripped texts are. */
  lemma ComponentDecides(tools: TextTools, a: string, b: string)
    requires Injective(tools)
    ensures StableComponent(tools, a).Some? <==> tools.strip(a) != ""
    ensures StableComponent(tools, a) == StableComponent(tools, b) <==> tools.strip(a) == tools.strip(b)
  {
    QuotingIsInvertible(tools.utf8(tools.strip(a)));
    QuotingIsInvertible(tools.utf8(tools.strip(b)));
  }

  // silver_table, below the bucket
  function SilverPrefix(component: string, entity: Entity): string {
    "silver/run_id=" + (component + "/" + Table(entity))
  }

  function Table(entity: Entity): string { "table=" + EntityName(entity) }

  // No entity name begins another.
  lemma NamesArePrefixFree(a: Entity, b: Entity, rest: string)
    ensures EntityName(a) <= EntityName(b) + rest <==> a == b
  {
    if a != b {
      var n := if (a.Orders? && b.OrderItems?) || (a.OrderItems? && b.Orders?) then 5 else 0;
      assert EntityName(a)[n] != EntityName(b)[n];
      assert (EntityName(b) + rest)[n] == EntityName(b)[n];
    }
  }

  // What precedes the first slash decides a match.
  lemma MatchUpToSlash(a: string, b: string, x: string, y: string)
    requires '/' !in a && '/' !in b
    ensures a + "/" + x <= b + "/" + y <==> a == b && x <= y
  {
    var s, t := a + "/" + x, b + "/" + y;
    assert s[|a|] == '/' && t[|b|] == '/';
    assert (forall i :: 0 <= i < |a| ==> s[i] == a[i]) && (forall i :: 0 <= i < |b| ==> t[i] == b[i]);
    if s <= t {
      assert forall i :: 0 <= i < |s| ==> s[i] == t[i];
      assert |a| == |b|;
      assert s[..|a|] == a && t[..|b|] == b;
    }
    if a == b { CommonStart(a + "/", x, y); }
  }

  lemma CommonStart(p: string, x: string, y: string)
    ensures p + x <= p + y <==> x <= y
    ensures p + x == p + y ==> x == y
  {
    assert (p + x)[|p|..] == x && (p + y)[|p|..] == y;
    if x <= y {
      assert y == x + y[|x|..];
      assert p + y == (p + x) + y[|x|..];
    }
    if p + x <= p + y {
      assert (p + y)[..|p + x|] == p + x;
      assert (p + y)[|p|..][..|x|] == x;
    }
  }

  lemma Reassociate(p: string, b: string, t: string, rest: string)
    ensures (p + (b + "/" + t)) + rest == p + (b + "/" + (t + rest))
  {
  }

  lemma TablesDecide(entity: Entity, other: Entity, rest: string)
    ensures Table(entity) <= Table(other) + rest <==> entity == other
  {
    NamesArePrefixFree(entity, other, rest);
    CommonStart("table=", EntityName(entity), EntityName(other) + rest);
    assert Table(other) + rest == "table=" + (EntityName(other) + rest);
  }

  lemma PrefixDecides(a: string, b: string, entity: Entity, otherEntity: Entity, file: string)
    requires '/' !in a && '/' !in b
    ensures SilverPrefix(a, entity) <= SilverPrefix(b, otherEntity) + ("/" + file) <==> a == b && entity == otherEntity
  {
    var rest := "/" + file;
    TablesDecide(entity, otherEntity, rest);
    MatchUpToSlash(a, b, Table(entity), Table(otherEntity) + rest);
    CommonStart("silver/run_id=", a + "/" + Table(entity), b + "/" + (Table(otherEntity) + rest));
    Reassociate("silver/run_id=", b, Table(otherEntity), rest);
  }

  /** Listing one run's entity finds no other run's objects and no other entity's: an object
      is found exactly when it belongs to the same stripped run id and the same entity. */
  lemma ListingFindsItsOwn(tools: TextTools, run: string, entity: Entity, other: string, otherEntity: Entity,
                           file: string)
    requires Injective(tools) && StableComponent(tools, run).Some? && StableComponent(tools, other).Some?
    ensures SilverPrefix(StableComponent(tools, run).value, entity)
            <= SilverPrefix(StableComponent(tools, other).value, otherEntity) + ("/" + file)
            <==> tools.strip(run) == tools.strip(other) && entity == otherEntity
  {
    NoSlashes(tools.utf8(tools.strip(run)));
    NoSlashes(tools.utf8(tools.strip(other)));
    ComponentDecides(tools, run, other);
    PrefixDecides(StableComponent(tools, run).value, StableComponent(tools, other).value, entity, otherEntity, file);
  }
}
