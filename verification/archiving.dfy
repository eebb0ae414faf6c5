/**
 * Byte data and the object archive used by the keychain's subscript.
 *
 * The keychain stores opaque byte data; its subscript archives an object into
 * bytes on the way in and unarchives it on the way out. The real archive
 * format is not modelled: a small tagged encoding of the two kinds of object
 * the application stores (strings and numbers) stands in for it, and the one
 * property the keychain relies on, that unarchiving an archive gives back the
 * object, is proved about it.
 */
module Archiving {
  import opened Optional

  newtype byte = x: int | 0 <= x < 256

  /** The contents of a `Data` value. */
  type Data = seq<byte>

  /** The objects stored through the subscript: text-view strings and numbers. */
  datatype Object = Text(s: string) | Number(n: int)

  const TextTag: byte := 0
  const NumberTag: byte := 1

  // ---------------------------------------------------------------------
  // Base-256 digits, least significant first.

  /** The digits of `n`, as many as it needs. */
  function Digits(n: nat): Data {
    if n == 0 then [] else [(n % 0x100) as byte] + Digits(n / 0x100)
  }

  /** The low `w` digits of `n`, padded with zeros. */
  function FixedDigits(n: nat, w: nat): (d: Data)
    ensures |d| == w
  {
    if w == 0 then [] else [(n % 0x100) as byte] + FixedDigits(n / 0x100, w - 1)
  }

  /** The number a digit sequence stands for. */
  function Magnitude(d: Data): nat {
    if d == [] then 0 else d[0] as nat + 0x100 * Magnitude(d[1..])
  }

  function Power256(w: nat): nat {
    if w == 0 then 1 else 0x100 * Power256(w - 1)
  }

  lemma {:induction false} DigitsRoundTrip(n: nat)
    ensures Magnitude(Digits(n)) == n
  {
    if n != 0 {
      var d := Digits(n);
      assert d[1..] == Digits(n / 0x100);
      DigitsRoundTrip(n / 0x100);
    }
  }

  lemma {:induction false} FixedDigitsRoundTrip(n: nat, w: nat)
    requires n < Power256(w)
    ensures Magnitude(FixedDigits(n, w)) == n
  {
    if w > 0 {
      var d := FixedDigits(n, w);
      assert d[1..] == FixedDigits(n / 0x100, w - 1);
      FixedDigitsRoundTrip(n / 0x100, w - 1);
    }
  }

  // ---------------------------------------------------------------------
  // Characters: each Unicode scalar value as three digits.

  predicate IsScalar(v: int) {
    (0 <= v < 0xD800) || (0xE000 <= v < 0x11_0000)
  }

  function EncodeChar(c: char): (d: Data)
    ensures |d| == 3
  {
    FixedDigits(c as int, 3)
  }

  function DecodeChar(b0: byte, b1: byte, b2: byte): Option<char> {
    var v := Magnitude([b0, b1, b2]);
    if IsScalar(v) then Some(v as char) else None
  }

  lemma CharRoundTrip(c: char)
    ensures var d := EncodeChar(c); DecodeChar(d[0], d[1], d[2]) == Some(c)
  {
    var d := EncodeChar(c);
    assert Power256(3) == 0x100_0000;
    FixedDigitsRoundTrip(c as int, 3);
    assert [d[0], d[1], d[2]] == d;
  }

  function EncodeChars(s: string): (d: Data)
    ensures |d| == 3 * |s|
  {
    if s == [] then [] else EncodeChar(s[0]) + EncodeChars(s[1..])
  }

  function DecodeChars(d: Data): Option<string>
    decreases |d|
  {
    if d == [] then Some([])
    else if |d| < 3 then None
    else match DecodeChar(d[0], d[1], d[2])
      case None => None
      case Some(c) =>
        match DecodeChars(d[3..])
        case None => None
        case Some(rest) => Some([c] + rest)
  }

  lemma {:induction false} CharsRoundTrip(s: string)
    ensures DecodeChars(EncodeChars(s)) == Some(s)
  {
    if s != [] {
      var d := EncodeChars(s);
      CharRoundTrip(s[0]);
      assert d[3..] == EncodeChars(s[1..]);
      CharsRoundTrip(s[1..]);
      assert [s[0]] + s[1..] == s;
    }
  }

  // ---------------------------------------------------------------------
  // The archive.

  /**
   * A text is its tag and then its characters; a number is its tag, a sign
   * byte (1 for negative) and the digits of its magnitude.
   */
  function Archive(o: Object): (d: Data)
    ensures |d| >= 1
  {
    match o
    case Text(s) => [TextTag] + EncodeChars(s)
    case Number(n) =>
      if n < 0 then [NumberTag, 1] + Digits(-n) else [NumberTag, 0] + Digits(n)
  }

  /** Reads an object back from bytes laid out as `Archive` lays them out. */
  function Decode(d: Data): Option<Object> {
    if d == [] then None
    else if d[0] == TextTag then
      match DecodeChars(d[1..])
      case None => None
      case Some(s) => Some(Text(s))
    else if d[0] == NumberTag && |d| >= 2 && d[1] <= 1 then
      var m: int := Magnitude(d[2..]);
      Some(Number(if d[1] == 1 then -m else m))
    else None
  }

  lemma {:induction false} DecodeArchive(o: Object)
    ensures Decode(Archive(o)) == Some(o)
  {
    var d := Archive(o);
    match o
    case Text(s) =>
      assert d[1..] == EncodeChars(s);
      CharsRoundTrip(s);
    case Number(n) =>
      var m := if n < 0 then -n else n;
      assert d[2..] == Digits(m);
      DigitsRoundTrip(m);
  }

  /**
   * The object archived in `d`, or `None` where the real unarchiver gives
   * `nil`: for bytes that are not an archive.
   */
  function Unarchive(d: Data): (r: Option<Object>)
    ensures r.Some? ==> Archive(r.value) == d
  {
    var o := Decode(d);
    if o.Some? && Archive(o.value) == d then o else None
  }

  /** Unarchiving is exactly the inverse of archiving. */
  lemma ArchiveRoundTrip(d: Data, o: Object)
    ensures Unarchive(d) == Some(o) <==> d == Archive(o)
  {
    DecodeArchive(o);
  }

  /** Distinct objects have distinct archives. */
  lemma ArchiveInjective(a: Object, b: Object)
    ensures Archive(a) == Archive(b) ==> a == b
  {
    DecodeArchive(a);
    DecodeArchive(b);
  }
}
