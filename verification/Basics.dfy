/** Small shared pieces: optional values, results, repeated members and text facts. */
module Basics {

  datatype Option<+T> = None | Some(value: T)

  datatype Result<+T, +E> = Ok(value: T) | Err(error: E)

  // ---- Repeated members ----

  lemma TwoOccurrences<T>(s: seq<T>, i: nat, j: nat)
    requires i < j < |s|
    ensures multiset(s) >= multiset{s[i], s[j]}
  {
    assert s == s[..i] + [s[i]] + s[i + 1..j] + [s[j]] + s[j + 1..];
  }

  lemma {:induction false} FindTwo<T>(s: seq<T>, x: T, y: T) returns (k: nat, l: nat)
    requires multiset(s) >= multiset{x, y}
    ensures k < |s| && l < |s| && k != l && s[k] == x && s[l] == y
    decreases |s|
  {
    Occurs(s, x, y);
    var rest := s[1..];
    assert s == [s[0]] + rest;
    if s[0] == x {
      assert multiset(rest) >= multiset{y};
      Occurs(rest, y, y);
      var m :| 0 <= m < |rest| && rest[m] == y;
      k, l := 0, m + 1;
    } else if s[0] == y {
      assert multiset(rest) >= multiset{x};
      Occurs(rest, x, x);
      var m :| 0 <= m < |rest| && rest[m] == x;
      k, l := m + 1, 0;
    } else {
      k, l := FindTwo(rest, x, y);
      k, l := k + 1, l + 1;
    }
  }

  lemma Occurs<T>(s: seq<T>, x: T, y: T)
    requires multiset(s) >= multiset{x, y} || multiset(s) >= multiset{x}
    ensures exists i :: 0 <= i < |s| && s[i] == x
  {
    assert multiset{x, y}[x] >= 1 && multiset{x}[x] >= 1;
    assert x in multiset(s);
  }

  // ---- Text ----

  predicate IsControl(c: char) { c < ' ' || '\U{7f}' <= c <= '\U{9f}' }

  predicate IsDigit(c: char) { '0' <= c <= '9' }

  predicate IsAlphanumeric(c: char) {
    IsDigit(c) || 'a' <= c <= 'z' || 'A' <= c <= 'Z'
  }

  function Utf8Width(c: char): nat {
    if c < '\U{80}' then 1 else if c < '\U{800}' then 2 else if c < '\U{10000}' then 3 else 4
  }

  /** How many code points fit in `width` bytes of the encoding of RFC 3629, section 3. */
  function Capacity(width: nat): nat {
    match width
    case 0 => 0
    case 1 => 0x80          // 7 bits
    case 2 => 0x20 * 0x40   // 5 + 6 bits
    case 3 => 0x10 * 0x1000 // 4 + 12 bits
    case _ => 0x8 * 0x4_0000 // 3 + 18 bits
  }

  /** A character takes as few bytes as its code point allows. */
  lemma Utf8WidthIsLeast(c: char)
    ensures 1 <= Utf8Width(c) <= 4
    ensures Capacity(Utf8Width(c) - 1) <= c as int < Capacity(Utf8Width(c))
  {
  }

  /** Length of a text in bytes. */
  function Utf8Length(s: string): nat {
    if s == [] then 0 else Utf8Length(s[..|s| - 1]) + Utf8Width(s[|s| - 1])
  }

  /** A text is never shorter in bytes than in characters, and as long when it is ASCII. */
  lemma {:induction false} Utf8LengthBounds(s: string)
    ensures |s| <= Utf8Length(s)
    ensures (forall c :: c in s ==> c < '\U{80}') ==> Utf8Length(s) == |s|
    decreases |s|
  {
    if s != [] {
      var init, last := s[..|s| - 1], s[|s| - 1];
      assert s == init + [last];
      assert last in s && forall c :: c in init ==> c in s;
      Utf8LengthBounds(init);
    }
  }

  // ---- Validated names ----

  const NAME_MAX_LEN: nat := 128

  predicate IsWhitespace(c: char) {
    || '\t' <= c <= '\r' || c == ' ' || c == '\U{85}' || c == '\U{a0}' || c == '\U{1680}'
    || '\U{2000}' <= c <= '\U{200a}' || c == '\U{2028}' || c == '\U{2029}' || c == '\U{202f}'
    || c == '\U{205f}' || c == '\U{3000}'
  }

  /** What `Name::new` accepts: not blank, at most 128 bytes, no control characters. */
  predicate NameOk(name: string) {
    && (exists c :: c in name && !IsWhitespace(c))
    && Utf8Length(name) <= NAME_MAX_LEN
    && forall c :: c in name ==> !IsControl(c)
  }

  /** `Name::new`. */
  method CheckName(name: string) returns (ok: bool)
    ensures ok == NameOk(name)
  {
    hide Utf8Length;
    if forall c :: c in name ==> IsWhitespace(c) {
      return false;
    }
    if Utf8Length(name) > 128 {
      return false;
    }
    return !exists c :: c in name && ((c as int) < 0x20 || 0x7f <= (c as int) <= 0x9f);
  }
}
