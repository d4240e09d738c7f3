/** The flit decoder (flit.js): a flit is a wide integer payload cut into
    named bit ranges.  A FlitField knows its range and optional symbolic
    value names; a Flit holds the ordered fields of one message kind and
    re-decodes all of them whenever a new raw value is assigned. */
module FlitDecoder {
  import opened Numbers

  /** One field description as read from the decoder configuration: the
      object the FlitField copy-constructor copies from. */
  datatype FieldSpec = FieldSpec(
    name: string,
    msb: nat,
    lsb: nat,
    valueNames: Option<map<string, string>>,
    value: Option<int>)

  // ---------------------------------------------------------------------
  // Bit extraction

  /** Bit i of v in two's complement (BigInt semantics: floor division by
      two, so negative values have infinitely many leading ones). */
  predicate Bit(v: int, i: nat)
    decreases i
  {
    if i == 0 then v % 2 == 1 else Bit(v / 2, i - 1)
  }

  /** What `from` stores: (raw >> lsb) & ((1 << (msb - lsb + 1)) - 1) on
      BigInts.  The shift floors; for a width w >= 0 the mask is 2^w - 1,
      so the AND is the Euclidean remainder by 2^w; when msb < lsb - 1 the
      shift count is negative, 1 << w is 0, the mask is -1 and the AND
      keeps every bit. */
  function FieldValue(raw: int, msb: nat, lsb: nat): (r: int)
    ensures msb >= lsb ==> 0 <= r < Pow2(msb - lsb + 1)
    ensures msb == lsb ==> r == 0 || r == 1
    ensures msb + 1 == lsb ==> r == 0
  {
    var width := msb - lsb + 1;
    var shifted := raw / Pow2(lsb);
    if width >= 0 then shifted % Pow2(width) else shifted
  }

  lemma {:induction false} BitOfZero(i: nat)
    ensures !Bit(0, i)
  {
    if i > 0 { BitOfZero(i - 1); }
  }

  /** Shifting right by a bits moves bit a + j down to bit j. */
  lemma {:induction false} BitOfShift(v: int, a: nat, j: nat)
    ensures Bit(v / Pow2(a), j) == Bit(v, a + j)
    decreases a
  {
    if a > 0 {
      DivModTwice(v, Pow2(a - 1));
      assert v / Pow2(a) == (v / 2) / Pow2(a - 1);
      BitOfShift(v / 2, a - 1, j);
    }
  }

  /** Masking with 2^w - 1 keeps the bits below w and clears the rest. */
  lemma {:induction false} BitOfMask(v: int, w: nat, j: nat)
    ensures Bit(v % Pow2(w), j) == (j < w && Bit(v, j))
    decreases w
  {
    if w == 0 {
      assert v % 1 == 0;
      BitOfZero(j);
    } else {
      var p := Pow2(w - 1);
      DivModTwice(v, p);
      var m := v % Pow2(w);
      assert m == 2 * ((v / 2) % p) + v % 2;
      if j > 0 {
        assert m / 2 == (v / 2) % p;
        BitOfMask(v / 2, w - 1, j - 1);
      }
    }
  }

  /** The decoded field is the bit range [msb:lsb] of the raw value moved
      down to bit 0: bit j of the field is bit lsb + j of the raw value
      inside the range and 0 above it. */
  lemma FieldValueBits(raw: int, msb: nat, lsb: nat, j: nat)
    requires msb >= lsb
    ensures Bit(FieldValue(raw, msb, lsb), j) == (j <= msb - lsb && Bit(raw, lsb + j))
  {
    BitOfMask(raw / Pow2(lsb), msb - lsb + 1, j);
    BitOfShift(raw, lsb, j);
  }

  // ---------------------------------------------------------------------
  // The strings shown in the decoded-flit grid

  /** The Bits column: "[msb:lsb]" with both bounds in decimal.  It is
      bracketed and holds one colon, right after the digits of msb. */
  function BitRange(msb: nat, lsb: nat): (r: string)
    ensures |r| == |NatToString(msb, 10)| + |NatToString(lsb, 10)| + 3
    ensures r[0] == '[' && r[|r| - 1] == ']' && r[|NatToString(msb, 10)| + 1] == ':'
    ensures forall i :: 0 <= i < |r| && r[i] == ':' ==> i == |NatToString(msb, 10)| + 1
  {
    var hi, lo := NatToString(msb, 10), NatToString(lsb, 10);
    NatToStringDigits(msb, 10);
    NatToStringDigits(lsb, 10);
    NoColonInDigits(hi);
    NoColonInDigits(lo);
    var r := "[" + hi + ":" + lo + "]";
    assert forall i :: 1 <= i <= |hi| ==> r[i] == hi[i - 1];
    assert forall i :: |hi| + 2 <= i < |r| - 1 ==> r[i] == lo[i - |hi| - 2];
    r
  }

  /** The first position of c in s. */
  function IndexOf(s: string, c: char): (r: Option<nat>)
    ensures r.Some? ==> r.value < |s| && s[r.value] == c && c !in s[..r.value]
    ensures r.None? ==> c !in s
  {
    if s == [] then None
    else if s[0] == c then Some(0)
    else match IndexOf(s[1..], c)
      case None => None
      case Some(k) => assert s[..k + 1] == [s[0]] + s[1..][..k]; Some(k + 1)
  }

  /** Reads a bit-range label back into its bounds. */
  function ParseBitRange(s: string): Option<(nat, nat)>
  {
    if |s| < 2 || s[0] != '[' || s[|s| - 1] != ']' then None
    else
      var body := s[1..|s| - 1];
      match IndexOf(body, ':')
      case None => None
      case Some(k) =>
        var hi, lo := body[..k], body[k + 1..];
        if hi != [] && lo != [] && AllDigits(hi, 10) && AllDigits(lo, 10)
        then Some((StringToNat(hi, 10), StringToNat(lo, 10)))
        else None
  }

  /** The Bits label determines the range: it reads back as (msb, lsb). */
  lemma BitRangeRoundTrip(msb: nat, lsb: nat)
    ensures ParseBitRange(BitRange(msb, lsb)) == Some((msb, lsb))
  {
    var hi, lo := NatToString(msb, 10), NatToString(lsb, 10);
    NatToStringRoundTrip(msb, 10);
    NatToStringRoundTrip(lsb, 10);
    ParseBitRangeOf(hi, lo);
  }

  /** Any "[hi:lo]" with two decimal numerals parses to their values. */
  lemma ParseBitRangeOf(hi: string, lo: string)
    requires hi != [] && lo != [] && AllDigits(hi, 10) && AllDigits(lo, 10)
    ensures ParseBitRange("[" + hi + ":" + lo + "]") == Some((StringToNat(hi, 10), StringToNat(lo, 10)))
  {
    var s := "[" + hi + ":" + lo + "]";
    var body := hi + ":" + lo;
    assert |s| >= 2 && s[0] == '[' && s[|s| - 1] == ']' && s[1..|s| - 1] == body;
    assert IndexOf(body, ':') == Some(|hi|) by {
      NoColonInDigits(hi);
      IndexOfAfter(hi, ':', lo);
    }
    assert body[..|hi|] == hi && body[|hi| + 1..] == lo;
  }

  lemma NoColonInDigits(s: string)
    requires AllDigits(s, 10)
    ensures ':' !in s
  {
    forall i | 0 <= i < |s| ensures s[i] != ':' {
      assert DigitValue(s[i], 10).Some?;
    }
  }

  lemma {:induction false} IndexOfAfter(a: string, c: char, b: string)
    requires c !in a
    ensures IndexOf(a + [c] + b, c) == Some(|a|)
  {
    var s := a + [c] + b;
    if a != [] {
      assert s[0] == a[0];
      assert s[1..] == a[1..] + [c] + b;
      IndexOfAfter(a[1..], c, b);
    }
  }

  /** The Number column: "0x" followed by BigInt toString(16) of the value
      (lower case, unpadded, "0x0" for zero, "0x-…" for a negative value). */
  function HexNumber(value: int): (s: string)
    ensures |s| >= 3 && s[..2] == "0x"
  {
    "0x" + IntToString(value, 16)
  }

  /** For a non-negative value the text after "0x" is a lower-case hex
      numeral without leading zeros that reads back as the value. */
  lemma HexNumberRoundTrip(value: nat)
    ensures var digits := HexNumber(value)[2..];
      && AllDigits(digits, 16)
      && StringToNat(digits, 16) == value
      && (|digits| > 1 ==> digits[0] != '0')
      && (forall i :: 0 <= i < |digits| ==> !('A' <= digits[i] <= 'F'))
  {
    var digits := HexNumber(value)[2..];
    assert digits == NatToString(value, 16);
    NatToStringRoundTrip(value, 16);
    NatToStringNoLeadingZero(value, 16);
    forall i | 0 <= i < |digits| ensures !('A' <= digits[i] <= 'F') {
      assert DigitValue(digits[i], 16).Some?;
    }
  }

  /** Distinct values have distinct Number strings, so a symbolic name is
      attached to exactly one value. */
  lemma HexNumberInjective(v: int, w: int)
    requires HexNumber(v) == HexNumber(w)
    ensures v == w
  {
    assert HexNumber(v)[2..] == IntToString(v, 16);
    assert HexNumber(w)[2..] == IntToString(w, 16);
    IntToStringInjective(v, w, 16);
  }

  /** valueNames has a non-empty (truthy) name under key. */
  predicate HasName(valueNames: Option<map<string, string>>, key: string)
  {
    valueNames.Some? && key in valueNames.value && valueNames.value[key] != ""
  }

  /** The Decoded column: `valueNames?.[Number] || Number`.  The table is
      consulted with the formatted hex string as key; a missing table, a
      missing key and an empty name all fall back to the Number string. */
  function DecodedLabel(valueNames: Option<map<string, string>>, value: int): (s: string)
    ensures HasName(valueNames, HexNumber(value)) ==> s == valueNames.value[HexNumber(value)]
    ensures !HasName(valueNames, HexNumber(value)) ==> s == HexNumber(value)
  {
    var number := HexNumber(value);
    if HasName(valueNames, number) then valueNames.value[number] else number
  }

  /** Only the key that is the value's own Number string matters: entries
      under any other key (decimal, upper-case or zero-padded spellings
      among them) never change the Decoded label. */
  lemma DecodedLabelIgnoresOtherKeys(names: map<string, string>, value: int, key: string, name: string)
    requires key != HexNumber(value)
    ensures DecodedLabel(Some(names[key := name]), value) == DecodedLabel(Some(names), value)
  {
  }

  /** Array.prototype.join(" "). */
  function JoinSpaces(parts: seq<string>): string
  {
    if |parts| == 0 then ""
    else if |parts| == 1 then parts[0]
    else parts[0] + " " + JoinSpaces(parts[1..])
  }

  /** join builds its result left to right: the string for parts + [p] is
      the string for parts, a single space, then p. */
  lemma {:induction false} JoinSpacesAppend(parts: seq<string>, p: string)
    ensures JoinSpaces(parts + [p]) == if parts == [] then p else JoinSpaces(parts) + " " + p
  {
    if |parts| >= 2 {
      assert (parts + [p])[1..] == parts[1..] + [p];
      JoinSpacesAppend(parts[1..], p);
    } else if |parts| == 1 {
      assert parts + [p] == [parts[0], p];
    }
  }

  // ---------------------------------------------------------------------
  // Objects

  /** One field of a decoder.  Only `value` ever changes after
      construction. */
  class FlitField {
    const name: string
    const msb: nat
    const lsb: nat
    const valueNames: Option<map<string, string>>
    /** undefined until the first `from` unless the configuration gave one */
    var value: Option<int>

    /** The copy-like constructor. */
    constructor (other: FieldSpec)
      ensures name == other.name && msb == other.msb && lsb == other.lsb
      ensures valueNames == other.valueNames && value == other.value
    {
      name, msb, lsb := other.name, other.msb, other.lsb;
      valueNames, value := other.valueNames, other.value;
    }

    /** `from`: decode this field out of a raw flit value. */
    method From(raw: int)
      modifies this
      ensures value == Some(FieldValue(raw, msb, lsb))
    {
      value := Some(FieldValue(raw, msb, lsb));
    }

    /** toString(): "name:Decoded".  When the name holds no colon, the
        first colon of the text ends the name and the Decoded label is
        everything after it. */
    function ToString(): (s: string)
      reads this
      requires value.Some?
      ensures ':' !in name ==> IndexOf(s, ':') == Some(|name|) && s[..|name|] == name
      ensures ':' !in name ==> s[|name| + 1..] == DecodedLabel(valueNames, value.value)
    {
      var decoded := DecodedLabel(valueNames, value.value);
      assert name + ":" + decoded == name + [':'] + decoded;
      if ':' !in name then IndexOfAfter(name, ':', decoded); name + ":" + decoded
      else name + ":" + decoded
    }
  }

  /** The field strings of fs, in order. */
  function FieldStrings(fs: seq<FlitField>): (r: seq<string>)
    reads fs
    requires forall i :: 0 <= i < |fs| ==> fs[i].value.Some?
    ensures |r| == |fs| && forall i :: 0 <= i < |fs| ==> r[i] == fs[i].ToString()
  {
    seq(|fs|, i reads fs requires 0 <= i < |fs| && fs[i].value.Some? => fs[i].ToString())
  }

  /** The strings of all fields are those of all but the last, then the last one's. */
  lemma FieldStringsSnoc(fs: seq<FlitField>)
    requires fs != [] && forall i :: 0 <= i < |fs| ==> fs[i].value.Some?
    ensures FieldStrings(fs) == FieldStrings(fs[..|fs| - 1]) + [fs[|fs| - 1].ToString()]
  {
    var n := |fs| - 1;
    var r, front := FieldStrings(fs), FieldStrings(fs[..n]);
    forall i | 0 <= i < n ensures r[i] == front[i] {
      assert fs[..n][i] == fs[i];
    }
    SnocOf(r, front, fs[n].ToString());
  }

  /** A sequence agreeing with front at every index of front and ending in last is front + [last]. */
  lemma SnocOf<T>(r: seq<T>, front: seq<T>, last: T)
    requires |r| == |front| + 1 && r[|front|] == last
    requires forall i :: 0 <= i < |front| ==> r[i] == front[i]
    ensures r == front + [last]
  {
  }

  /** A decoder: the ordered fields of one message kind and the raw value
      last assigned to it. */
  class Flit {
    var fields: seq<FlitField>
    var rawValue: Option<int>

    /** One fresh FlitField per spec, in the given order (an absent list is
        the empty sequence). */
    constructor (specs: seq<FieldSpec>)
      ensures |fields| == |specs| && rawValue == None
      ensures forall i :: 0 <= i < |specs| ==> fresh(fields[i])
      ensures forall i :: 0 <= i < |specs| ==>
        fields[i].name == specs[i].name && fields[i].msb == specs[i].msb &&
        fields[i].lsb == specs[i].lsb && fields[i].valueNames == specs[i].valueNames &&
        fields[i].value == specs[i].value
    {
      fields, rawValue := [], None;
      new;
      for i := 0 to |specs|
        invariant |fields| == i && rawValue == None
        invariant forall j :: 0 <= j < i ==> fresh(fields[j])
        invariant forall j :: 0 <= j < i ==>
          fields[j].name == specs[j].name && fields[j].msb == specs[j].msb &&
          fields[j].lsb == specs[j].lsb && fields[j].valueNames == specs[j].valueNames &&
          fields[j].value == specs[j].value
      {
        var f := new FlitField(specs[i]);
        fields := fields + [f];
      }
    }

    /** The `value` setter: remember the raw value and decode every field
        from it.  The field list itself (count, order, objects) stays. */
    method SetValue(to: int)
      modifies this, fields
      ensures rawValue == Some(to) && fields == old(fields)
      ensures forall i :: 0 <= i < |fields| ==> fields[i].value == Some(FieldValue(to, fields[i].msb, fields[i].lsb))
    {
      rawValue := Some(to);
      for i := 0 to |fields|
        invariant rawValue == Some(to) && fields == old(fields)
        invariant forall j :: 0 <= j < i ==> fields[j].value == Some(FieldValue(to, fields[j].msb, fields[j].lsb))
      {
        fields[i].From(to);
      }
    }

    /** toString(): the field strings joined by single spaces.  Built
        left to right: the text of all but the last field, a space, and the
        last field's text. */
    function ToString(): (s: string)
      reads this, fields
      requires forall i :: 0 <= i < |fields| ==> fields[i].value.Some?
      ensures fields == [] ==> s == ""
      ensures |fields| == 1 ==> s == fields[0].ToString()
      ensures |fields| > 1 ==> var n := |fields| - 1;
        s == JoinSpaces(FieldStrings(fields[..n])) + " " + fields[n].ToString()
    {
      if |fields| > 0 then
        var n := |fields| - 1;
        var front, last := FieldStrings(fields[..n]), fields[n].ToString();
        FieldStringsSnoc(fields);
        JoinSpacesAppend(front, last);
        assert JoinSpaces(FieldStrings(fields)) == if n == 0 then last else JoinSpaces(front) + " " + last;
        JoinSpaces(FieldStrings(fields))
      else JoinSpaces(FieldStrings(fields))
    }
  }
}
