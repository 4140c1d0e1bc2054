/** The slice of BSON the role commands read: a value is a string, a 32- or
    64-bit integer, a boolean, null, an array or a document. A document keeps
    its fields in wire order and may repeat a key, exactly as a BSON
    iterator would present them. */
module Bson {
  import opened Wrappers

  datatype Value =
    | Str(s: string)
    | Int32(i: int)
    | Int64(l: int)
    | Bool(b: bool)
    | Null
    | Arr(elements: seq<Value>)
    | Doc(fields: seq<Field>)

  datatype Field = Field(key: string, value: Value)

  /** True when some field of `fields` carries the key `key`. */
  predicate HasKey(fields: seq<Field>, key: string) {
    exists i :: 0 <= i < |fields| && fields[i].key == key
  }

  lemma HasKeyCons(fields: seq<Field>, key: string)
    requires |fields| > 0
    ensures HasKey(fields, key) <==> fields[0].key == key || HasKey(fields[1..], key)
  {
  }

  /** The value of the last field of `fields` carrying the key `key`, read
      from the end of the document: the value a parser that lets a repeated
      key overwrite ends up with. */
  function LastValue(fields: seq<Field>, key: string): (r: Option<Value>)
    ensures r.Some? <==> HasKey(fields, key)
    ensures r.Some? ==> exists i :: 0 <= i < |fields| && fields[i] == Field(key, r.value)
    decreases |fields|
  {
    if |fields| == 0 then None
    else
      var n := |fields| - 1;
      assert forall i :: 0 <= i < n ==> fields[..n][i] == fields[i];
      if fields[n].key == key then Some(fields[n].value)
      else LastValue(fields[..n], key)
  }

  /** Reading the last value from the front: the rest of the document
      decides, unless it lacks the key. */
  lemma {:induction false} LastValueCons(fields: seq<Field>, key: string)
    requires |fields| > 0
    ensures LastValue(fields, key) ==
      if HasKey(fields[1..], key) then LastValue(fields[1..], key)
      else if fields[0].key == key then Some(fields[0].value)
      else None
    decreases |fields|
  {
    var n := |fields| - 1;
    if n > 0 {
      assert fields[..n][1..] == fields[1..][..n - 1];
      assert fields[1..][n - 1] == fields[n];
      LastValueCons(fields[..n], key);
    }
  }

  /** The number of bytes of the UTF-8 encoding of a character. */
  function Utf8Width(c: char): nat {
    if c as int < 0x80 then 1
    else if c as int < 0x800 then 2
    else if c as int < 0x10000 then 3
    else 4
  }

  /** The byte length of the UTF-8 encoding of a string, as a BSON string
      iterator reports it. */
  function Utf8Length(s: string): nat {
    if |s| == 0 then 0 else Utf8Width(s[0]) + Utf8Length(s[1..])
  }

  /** The longest prefix of `s` whose UTF-8 encoding fits in `budget`
      bytes: what is left when the encoding is cut after `budget` bytes
      and a character cut in two is dropped. */
  function Utf8Clip(s: string, budget: nat): (r: string)
    ensures r <= s && Utf8Length(r) <= budget
    decreases |s|
  {
    if |s| == 0 || Utf8Width(s[0]) > budget then []
    else
      var rest := Utf8Clip(s[1..], budget - Utf8Width(s[0]));
      assert ([s[0]] + rest)[1..] == rest;
      [s[0]] + rest
  }

  /** A prefix of exactly `budget` bytes is the clip: no longer prefix
      fits and no shorter one is the longest. */
  lemma {:induction false} Utf8ClipExact(s: string, p: string, budget: nat)
    requires p <= s && Utf8Length(p) == budget
    ensures Utf8Clip(s, budget) == p
    decreases |p|
  {
    if |p| > 0 {
      assert s[0] == p[0];
      assert p[1..] <= s[1..];
      Utf8ClipExact(s[1..], p[1..], budget - Utf8Width(p[0]));
      assert [p[0]] + p[1..] == p;
    }
  }

  /** A string that fits in the budget is left whole. */
  lemma {:induction false} Utf8ClipWhole(s: string, budget: nat)
    requires Utf8Length(s) <= budget
    ensures Utf8Clip(s, budget) == s
    decreases |s|
  {
    if |s| > 0 {
      Utf8ClipWhole(s[1..], budget - Utf8Width(s[0]));
      assert [s[0]] + s[1..] == s;
    }
  }

  /** Each character takes one to four bytes. */
  lemma {:induction false} Utf8LengthBounds(s: string)
    ensures |s| <= Utf8Length(s) <= 4 * |s|
  {
    if |s| > 0 {
      Utf8LengthBounds(s[1..]);
    }
  }

  /** An ASCII string takes one byte per character. */
  lemma {:induction false} Utf8LengthAscii(s: string)
    requires forall i :: 0 <= i < |s| ==> s[i] as int < 0x80
    ensures Utf8Length(s) == |s|
  {
    if |s| > 0 {
      assert forall i :: 0 <= i < |s[1..]| ==> s[1..][i] == s[i + 1];
      Utf8LengthAscii(s[1..]);
    }
  }

  /** A string of characters outside ASCII takes at least two bytes per
      character. */
  lemma {:induction false} Utf8LengthWide(s: string)
    requires forall i :: 0 <= i < |s| ==> s[i] as int >= 0x80
    ensures Utf8Length(s) >= 2 * |s|
  {
    if |s| > 0 {
      assert forall i :: 0 <= i < |s[1..]| ==> s[1..][i] == s[i + 1];
      Utf8LengthWide(s[1..]);
    }
  }
}
