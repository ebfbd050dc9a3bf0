/** The two MAC spellings: `_format_mac` for SNMP values and indexes, `normalize_mac` for submitted ones. ASCII text. */
module MacFormat {
  import opened Wrappers

  predicate IsSpace(c: char) {
    9 <= c as int <= 13 || 28 <= c as int <= 32
  }

  predicate IsDigit(c: char) {
    '0' <= c <= '9'
  }

  predicate IsHex(c: char) {
    IsDigit(c) || 'a' <= c <= 'f' || 'A' <= c <= 'F'
  }

  function Lower(c: char): char {
    if 'A' <= c <= 'Z' then (c as int + 32) as char else c
  }

  function LowerAll(s: string): string {
    seq(|s|, i requires 0 <= i < |s| => Lower(s[i]))
  }

  function Strip(s: string): string {
    if s == "" then ""
    else if IsSpace(s[0]) then Strip(s[1..])
    else if IsSpace(s[|s| - 1]) then Strip(s[..|s| - 1])
    else s
  }

  /** Python's `split(".")`: one part more than there are dots. */
  function Split(s: string): (parts: seq<string>)
    ensures |parts| >= 1
  {
    if s == "" then [""]
    else
      var rest := Split(s[1..]);
      if s[0] == '.' then [""] + rest else [[s[0]] + rest[0]] + rest[1..]
  }

  predicate AllDigits(s: string) {
    s != "" && forall i :: 0 <= i < |s| ==> IsDigit(s[i])
  }

  function DigitValue(c: char): nat
    requires IsDigit(c)
  {
    c as int - '0' as int
  }

  /** Python's `int()` of a digit string. */
  function ParseNat(s: string): nat
    requires AllDigits(s)
  {
    if |s| == 1 then DigitValue(s[0]) else 10 * ParseNat(s[..|s| - 1]) + DigitValue(s[|s| - 1])
  }

  function Values(parts: seq<string>): (values: seq<nat>)
    requires forall i :: 0 <= i < |parts| ==> AllDigits(parts[i])
    ensures |values| == |parts|
    ensures forall i :: 0 <= i < |parts| ==> values[i] == ParseNat(parts[i])
  {
    seq(|parts|, i requires 0 <= i < |parts| => ParseNat(parts[i]))
  }

  type Octets = o: seq<nat> | |o| == 6 && forall i :: 0 <= i < 6 ==> o[i] <= 255 witness [0, 0, 0, 0, 0, 0]

  /** Six dotted decimal octets, the form of an FDB index. */
  function DottedOctets(s: string): Option<Octets> {
    var parts := Split(s);
    if '.' in s && (forall i :: 0 <= i < |parts| ==> AllDigits(parts[i])) then
      var values := Values(parts);
      if |values| == 6 && forall i :: 0 <= i < 6 ==> values[i] <= 255 then Some(values) else None
    else None
  }

  function HexDigit(n: nat): char
    requires n < 16
  {
    "0123456789abcdef"[n]
  }

  function Hex2(n: nat): string
    requires n <= 255
  {
    [HexDigit(n / 16), HexDigit(n % 16)]
  }

  function HexAll(o: seq<nat>): string
    requires forall i :: 0 <= i < |o| ==> o[i] <= 255
  {
    if o == [] then "" else Hex2(o[0]) + HexAll(o[1..])
  }

  /** The digits in pairs, with colons in between. */
  function Colons(digits: string): string {
    if |digits| <= 2 then digits else digits[..2] + ":" + Colons(digits[2..])
  }

  /** The canonical spelling aa:bb:cc:dd:ee:ff. */
  function Canonical(o: Octets): string {
    Colons(HexAll(o))
  }

  function Compact(s: string): string {
    if s == "" then "" else if IsHex(s[0]) then [s[0]] + Compact(s[1..]) else Compact(s[1..])
  }

  /** `_format_mac` */
  function FormatMac(value: string): string {
    var s := Strip(value);
    var octets := DottedOctets(s);
    if octets.Some? then Canonical(octets.value)
    else
      var digits := Compact(s);
      if |digits| == 12 then Colons(LowerAll(digits)) else LowerAll(s)
  }

  datatype Normalized = Absent | Invalid | Normal(mac: string)

  /** `normalize_mac`: nothing for a missing or blank value, an error unless there are twelve hex digits. */
  function NormalizeMac(value: Option<string>): Normalized {
    if value.None? || Strip(value.value) == "" then Absent
    else
      var digits := Compact(value.value);
      if |digits| == 12 then Normal(Colons(LowerAll(digits))) else Invalid
  }

  // ----- strings

  lemma {:induction false} CompactAppend(a: string, b: string)
    ensures Compact(a + b) == Compact(a) + Compact(b)
  {
    if a == "" {
      assert a + b == b;
    } else {
      CompactAppend(a[1..], b);
      assert (a + b)[1..] == a[1..] + b;
    }
  }

  lemma {:induction false} CompactAll(s: string)
    requires forall i :: 0 <= i < |s| ==> IsHex(s[i])
    ensures Compact(s) == s
  {
    if s != "" {
      CompactAll(s[1..]);
    }
  }

  lemma {:induction false} CompactStrip(s: string)
    ensures Compact(Strip(s)) == Compact(s)
  {
    if s != "" {
      if IsSpace(s[0]) {
        CompactStrip(s[1..]);
      } else if IsSpace(s[|s| - 1]) {
        CompactStrip(s[..|s| - 1]);
        assert s == s[..|s| - 1] + [s[|s| - 1]];
        CompactAppend(s[..|s| - 1], [s[|s| - 1]]);
      }
    }
  }

  /** A string whose ends are not blank is not stripped. */
  lemma {:induction false} StripNothing(s: string)
    requires s != "" ==> !IsSpace(s[0]) && !IsSpace(s[|s| - 1])
    ensures Strip(s) == s
  {
  }

  lemma StripEnds(s: string)
    ensures Strip(s) != "" ==> !IsSpace(Strip(s)[0]) && !IsSpace(Strip(s)[|Strip(s)| - 1])
  {
  }

  lemma {:induction false} LowerCompact(s: string)
    ensures Compact(LowerAll(s)) == LowerAll(Compact(s))
  {
    if s != "" {
      LowerCompact(s[1..]);
      assert LowerAll(s)[1..] == LowerAll(s[1..]);
      assert IsHex(Lower(s[0])) <==> IsHex(s[0]);
      if IsHex(s[0]) {
        assert LowerAll([s[0]] + Compact(s[1..])) == [Lower(s[0])] + LowerAll(Compact(s[1..]));
      }
    }
  }

  lemma {:induction false} LowerTwice(s: string)
    ensures LowerAll(LowerAll(s)) == LowerAll(s)
  {
  }

  lemma CompactIsHex(s: string)
    ensures forall i :: 0 <= i < |Compact(s)| ==> IsHex(Compact(s)[i])
  {
  }

  lemma {:induction false} ColonsShape(digits: string)
    requires digits != "" && forall i :: 0 <= i < |digits| ==> IsHex(digits[i])
    ensures Compact(Colons(digits)) == digits && Strip(Colons(digits)) == Colons(digits)
    ensures '.' !in Colons(digits)
  {
    ColonsChars(digits);
    CompactColons(digits);
    var s := Colons(digits);
    assert IsHex(s[0]) && IsHex(s[|s| - 1]);
    StripNothing(s);
  }

  lemma {:induction false} ColonsChars(digits: string)
    requires digits != "" && forall i :: 0 <= i < |digits| ==> IsHex(digits[i])
    ensures Colons(digits) != "" && IsHex(Colons(digits)[0]) && IsHex(Colons(digits)[|Colons(digits)| - 1])
    ensures forall i :: 0 <= i < |Colons(digits)| ==> IsHex(Colons(digits)[i]) || Colons(digits)[i] == ':'
  {
    if |digits| > 2 {
      ColonsChars(digits[2..]);
    }
  }

  lemma {:induction false} CompactColons(digits: string)
    requires forall i :: 0 <= i < |digits| ==> IsHex(digits[i])
    ensures Compact(Colons(digits)) == digits
  {
    if |digits| <= 2 {
      CompactAll(digits);
    } else {
      CompactColons(digits[2..]);
      CompactAll(digits[..2]);
      CompactAppend(digits[..2], ":");
      CompactAppend(digits[..2] + ":", Colons(digits[2..]));
      assert digits[..2] + digits[2..] == digits;
    }
  }

  lemma HexDigitShape(n: nat)
    requires n < 16
    ensures IsHex(HexDigit(n)) && Lower(HexDigit(n)) == HexDigit(n)
  {
  }

  lemma {:induction false} HexAllShape(o: seq<nat>)
    requires forall i :: 0 <= i < |o| ==> o[i] <= 255
    ensures |HexAll(o)| == 2 * |o|
    ensures forall i :: 0 <= i < |HexAll(o)| ==> IsHex(HexAll(o)[i]) && Lower(HexAll(o)[i]) == HexAll(o)[i]
  {
    if o != [] {
      HexAllShape(o[1..]);
      HexDigitShape(o[0] / 16);
      HexDigitShape(o[0] % 16);
    }
  }

  // ----- canonical form

  /** Twelve lower-case hex digits in pairs are left alone. */
  lemma {:induction false} FormatFixed(digits: string)
    requires |digits| == 12 && forall i :: 0 <= i < 12 ==> IsHex(digits[i]) && Lower(digits[i]) == digits[i]
    ensures FormatMac(Colons(digits)) == Colons(digits)
  {
    ColonsShape(digits);
    assert LowerAll(digits) == digits;
  }

  /** Any spelling whose hex digits, in order, are those of the octets is formatted canonically. */
  lemma {:induction false} HexSpelling(value: string, o: Octets)
    requires LowerAll(Compact(value)) == HexAll(o) && '.' !in value
    ensures FormatMac(value) == Canonical(o)
    ensures NormalizeMac(Some(value)) == Normal(Canonical(o))
  {
    HexAllShape(o);
    CompactStrip(value);
    StripChars(value);
    assert |Compact(value)| == 12;
  }

  lemma StripChars(s: string)
    ensures forall i :: 0 <= i < |Strip(s)| ==> Strip(s)[i] in s
  {
  }

  /** Wherever both apply and the value is not a dotted index, the two spellings agree. */
  lemma {:induction false} FormatAgreesWithNormalize(value: string)
    requires NormalizeMac(Some(value)).Normal? && DottedOctets(Strip(value)).None?
    ensures FormatMac(value) == NormalizeMac(Some(value)).mac
  {
    CompactStrip(value);
  }

  /** Parts joined by dots. */
  function JoinDots(parts: seq<string>): string {
    if parts == [] then "" else if |parts| == 1 then parts[0] else parts[0] + "." + JoinDots(parts[1..])
  }

  lemma {:induction false} SplitPrefix(part: string, rest: string)
    requires forall i :: 0 <= i < |part| ==> part[i] != '.'
    ensures Split(part + "." + rest) == [part] + Split(rest)
    ensures Split(part) == [part]
  {
    if part == "" {
      assert part + "." + rest == "." + rest;
      assert ("." + rest)[1..] == rest;
    } else {
      SplitPrefix(part[1..], rest);
      assert (part + "." + rest)[1..] == part[1..] + "." + rest;
      assert [part[0]] + part[1..] == part;
    }
  }

  predicate DotFree(parts: seq<string>) {
    forall i :: 0 <= i < |parts| ==> '.' !in parts[i]
  }

  lemma SplitFirst(part: string, rest: string)
    requires '.' !in part
    ensures Split(part + "." + rest) == [part] + Split(rest) && Split(part) == [part]
  {
    forall i | 0 <= i < |part| ensures part[i] != '.' { assert part[i] in part; }
    SplitPrefix(part, rest);
  }

  /** Splitting at the dots undoes joining with dots, whatever the parts are. */
  lemma {:induction false} SplitJoinFree(parts: seq<string>)
    requires parts != [] && DotFree(parts)
    ensures Split(JoinDots(parts)) == parts
  {
    if |parts| == 1 {
      SplitFirst(parts[0], "");
    } else {
      SplitJoinFree(parts[1..]);
      SplitFirst(parts[0], JoinDots(parts[1..]));
      assert parts == [parts[0]] + parts[1..];
    }
  }

  lemma {:induction false} SplitJoin(parts: seq<string>)
    requires parts != [] && forall i :: 0 <= i < |parts| ==> AllDigits(parts[i])
    ensures Split(JoinDots(parts)) == parts
    ensures JoinDots(parts) != "" && IsDigit(JoinDots(parts)[0]) && IsDigit(JoinDots(parts)[|JoinDots(parts)| - 1])
    ensures |parts| > 1 ==> '.' in JoinDots(parts)
  {
    if |parts| == 1 {
      SplitPrefix(parts[0], "");
    } else {
      SplitJoin(parts[1..]);
      SplitPrefix(parts[0], JoinDots(parts[1..]));
      assert JoinDots(parts)[|parts[0]|] == '.';
    }
  }

  /** A six-part decimal index, leading zeros or not, is formatted as its octets. */
  lemma {:induction false} DottedSpelling(parts: seq<string>, o: Octets)
    requires |parts| == 6 && forall i :: 0 <= i < 6 ==> AllDigits(parts[i]) && ParseNat(parts[i]) == o[i]
    ensures FormatMac(JoinDots(parts)) == Canonical(o)
  {
    SplitJoin(parts);
    StripNothing(JoinDots(parts));
    assert Values(parts) == o;
  }

  lemma HexDigitInjective(a: nat, b: nat)
    requires a < 16 && b < 16 && HexDigit(a) == HexDigit(b)
    ensures a == b
  {
    assert forall i, j {:trigger "0123456789abcdef"[i], "0123456789abcdef"[j]} :: 0 <= i < j < 16 ==>
      "0123456789abcdef"[i] != "0123456789abcdef"[j];
  }

  lemma {:induction false} Hex2Injective(a: nat, b: nat)
    requires a <= 255 && b <= 255 && Hex2(a) == Hex2(b)
    ensures a == b
  {
    assert Hex2(a)[0] == Hex2(b)[0] && Hex2(a)[1] == Hex2(b)[1];
    HexDigitInjective(a / 16, b / 16);
    HexDigitInjective(a % 16, b % 16);
  }

  lemma {:induction false} HexAllInjective(a: seq<nat>, b: seq<nat>)
    requires |a| == |b|
    requires forall i :: 0 <= i < |a| ==> a[i] <= 255 && b[i] <= 255
    requires HexAll(a) == HexAll(b)
    ensures a == b
  {
    if a != [] {
      assert HexAll(a)[..2] == Hex2(a[0]) && HexAll(b)[..2] == Hex2(b[0]);
      assert HexAll(a)[2..] == HexAll(a[1..]) && HexAll(b)[2..] == HexAll(b[1..]);
      Hex2Injective(a[0], b[0]);
      HexAllInjective(a[1..], b[1..]);
      assert a == [a[0]] + a[1..] && b == [b[0]] + b[1..];
    }
  }

  /** Different octets have different canonical spellings. */
  lemma {:induction false} CanonicalInjective(a: Octets, b: Octets)
    requires Canonical(a) == Canonical(b)
    ensures a == b
  {
    HexAllShape(a);
    HexAllShape(b);
    CompactColons(HexAll(a));
    CompactColons(HexAll(b));
    HexAllInjective(a, b);
  }

  function LowerEach(parts: seq<string>): (r: seq<string>)
    ensures |r| == |parts|
  {
    seq(|parts|, i requires 0 <= i < |parts| => LowerAll(parts[i]))
  }

  lemma LowerDot(c: char)
    ensures Lower(c) == '.' <==> c == '.'
  {
  }

  lemma LowerFirst(c: char, parts: seq<string>)
    requires parts != []
    ensures LowerEach([""] + parts) == [""] + LowerEach(parts)
    ensures LowerEach([[c] + parts[0]] + parts[1..]) == [[Lower(c)] + LowerEach(parts)[0]] + LowerEach(parts)[1..]
  {
    assert LowerAll([c] + parts[0]) == [Lower(c)] + LowerAll(parts[0]);
  }

  /** A lower-cased, stripped value keeps the dotted shape it had. */
  lemma {:induction false} LowerSplit(s: string)
    ensures Split(LowerAll(s)) == LowerEach(Split(s))
  {
    if s != "" {
      LowerSplit(s[1..]);
      assert LowerAll(s)[0] == Lower(s[0]) && LowerAll(s)[1..] == LowerAll(s[1..]);
      LowerDot(s[0]);
      LowerFirst(s[0], Split(s[1..]));
    }
  }

  lemma {:induction false} LowerDigits(s: string)
    ensures AllDigits(LowerAll(s)) <==> AllDigits(s)
    ensures AllDigits(s) ==> LowerAll(s) == s
  {
    if AllDigits(LowerAll(s)) {
      forall i | 0 <= i < |s| ensures IsDigit(s[i]) { assert IsDigit(LowerAll(s)[i]); }
    }
    if AllDigits(s) {
      assert LowerAll(s) == s;
    }
  }

  lemma {:induction false} LowerDotted(s: string)
    requires DottedOctets(s).None?
    ensures DottedOctets(LowerAll(s)).None?
  {
    var t := LowerAll(s);
    LowerSplit(s);
    var parts, low := Split(s), Split(t);
    if DottedOctets(t).Some? {
      var k :| 0 <= k < |t| && t[k] == '.';
      assert s[k] == '.';
      forall i | 0 <= i < |parts| ensures AllDigits(parts[i]) && low[i] == parts[i] {
        assert AllDigits(low[i]);
        LowerDigits(parts[i]);
      }
    }
  }

  /** Formatting twice is formatting once, on every ASCII string. */
  lemma {:induction false} FormatIdempotent(value: string)
    ensures FormatMac(FormatMac(value)) == FormatMac(value)
  {
    var s := Strip(value);
    if DottedOctets(s).Some? {
      HexAllShape(DottedOctets(s).value);
      FormatFixed(HexAll(DottedOctets(s).value));
    } else if |Compact(s)| == 12 {
      CompactIsHex(s);
      FormatFixed(LowerAll(Compact(s)));
    } else {
      var t := LowerAll(s);
      StripEnds(value);
      StripNothing(t);
      LowerDotted(s);
      LowerCompact(s);
      LowerTwice(s);
    }
  }

  lemma {:induction false} TwoDigits(s: string)
    requires |s| == 2 && AllDigits(s)
    ensures ParseNat(s) == 10 * DigitValue(s[0]) + DigitValue(s[1])
  {
    assert ParseNat(s[..1]) == DigitValue(s[0]);
  }

  /** Two decimal digits are the hex spelling of their number only below ten. */
  lemma PairAgrees(s: string, n: nat)
    requires |s| == 2 && AllDigits(s) && n == ParseNat(s)
    ensures n <= 99 && (Hex2(n) == s <==> n < 10)
  {
    TwoDigits(s);
    var a, b := DigitValue(s[0]), DigitValue(s[1]);
    if a == 0 {
      assert n / 16 == 0 && n % 16 == b;
      assert Hex2(n)[0] == s[0] && Hex2(n)[1] == s[1];
    } else {
      TensDiffer(a, b);
      assert Hex2(n)[0] == HexDigit(n / 16) && Hex2(n)[1] == HexDigit(n % 16);
      HexDigitValue(n / 16, s[0]);
      HexDigitValue(n % 16, s[1]);
    }
  }

  lemma TensDiffer(a: nat, b: nat)
    requires 1 <= a <= 9 && b <= 9
    ensures (10 * a + b) / 16 != a || (10 * a + b) % 16 != b
  {
  }

  lemma HexDigitValue(n: nat, c: char)
    requires n < 16 && IsDigit(c)
    ensures HexDigit(n) == c <==> n == DigitValue(c)
  {
  }

  function Flat(parts: seq<string>): string {
    if parts == [] then "" else parts[0] + Flat(parts[1..])
  }

  /** The hex digits of the octets are the decimal digits exactly when every octet is below ten. */
  lemma {:induction false} FlatAgrees(parts: seq<string>, o: seq<nat>)
    requires |parts| == |o| && forall i :: 0 <= i < |o| ==> |parts[i]| == 2 && AllDigits(parts[i]) && o[i] == ParseNat(parts[i])
    requires forall i :: 0 <= i < |o| ==> o[i] <= 255
    ensures HexAll(o) == Flat(parts) <==> forall i :: 0 <= i < |o| ==> o[i] < 10
  {
    if o != [] {
      PairAgrees(parts[0], o[0]);
      FlatAgrees(parts[1..], o[1..]);
      var rest, flat := HexAll(o[1..]), Flat(parts[1..]);
      assert (Hex2(o[0]) + rest)[..2] == Hex2(o[0]) && (Hex2(o[0]) + rest)[2..] == rest;
      assert (parts[0] + flat)[..2] == parts[0] && (parts[0] + flat)[2..] == flat;
      assert (forall i :: 0 <= i < |o| ==> o[i] < 10) <==> o[0] < 10 && forall i :: 0 <= i < |o[1..]| ==> o[1..][i] < 10;
    }
  }

  lemma {:induction false} CompactDots(parts: seq<string>)
    requires parts != [] && forall i :: 0 <= i < |parts| ==> |parts[i]| == 2 && AllDigits(parts[i])
    ensures Compact(JoinDots(parts)) == Flat(parts) && |Flat(parts)| == 2 * |parts|
    ensures forall i :: 0 <= i < |Flat(parts)| ==> IsDigit(Flat(parts)[i])
  {
    CompactAll(parts[0]);
    if |parts| > 1 {
      CompactDots(parts[1..]);
      CompactAppend(parts[0], ".");
      CompactAppend(parts[0] + ".", JoinDots(parts[1..]));
    } else {
      assert parts[1..] == [] && Flat(parts) == parts[0] + "";
    }
  }

  /** `normalize_mac` takes the twelve decimal digits of such an index for hex digits. */
  lemma DottedNormalized(parts: seq<string>)
    requires |parts| == 6 && forall i :: 0 <= i < 6 ==> |parts[i]| == 2 && AllDigits(parts[i])
    ensures NormalizeMac(Some(JoinDots(parts))) == Normal(Colons(Flat(parts)))
  {
    SplitJoin(parts);
    StripNothing(JoinDots(parts));
    CompactDots(parts);
    assert LowerAll(Flat(parts)) == Flat(parts);
  }

  /**
    On a dotted index of two-digit octets one function reads decimal octets, the other hex pairs: they
    agree exactly when every octet is below ten.
   */
  lemma {:induction false} DottedIndexAgreesExactly(parts: seq<string>, o: Octets)
    requires |parts| == 6 && forall i :: 0 <= i < 6 ==> |parts[i]| == 2 && AllDigits(parts[i]) && o[i] == ParseNat(parts[i])
    ensures NormalizeMac(Some(JoinDots(parts))).Normal?
    ensures FormatMac(JoinDots(parts)) == NormalizeMac(Some(JoinDots(parts))).mac <==> forall i :: 0 <= i < 6 ==> o[i] < 10
  {
    DottedSpelling(parts, o);
    DottedNormalized(parts);
    FlatAgrees(parts, o);
    ColonsInjective(HexAll(o), Flat(parts)) by { HexAllShape(o); CompactDots(parts); }
  }

  lemma ColonsInjective(a: string, b: string)
    requires forall i :: 0 <= i < |a| ==> IsHex(a[i])
    requires forall i :: 0 <= i < |b| ==> IsHex(b[i])
    ensures Colons(a) == Colons(b) <==> a == b
  {
    CompactColons(a);
    CompactColons(b);
  }

  // ----- the spellings, character by character

  /** What a hex digit of either case is worth; -1 for any other character. */
  function HexValue(c: char): int {
    if '0' <= c <= '9' then c as int - '0' as int
    else if 'a' <= c <= 'f' then c as int - 'a' as int + 10
    else if 'A' <= c <= 'F' then c as int - 'A' as int + 10
    else -1
  }

  lemma HexDigitWorth(n: nat)
    requires n < 16
    ensures HexValue(HexDigit(n)) == n && !('A' <= HexDigit(n) <= 'F')
  {
  }

  lemma {:induction false} ColonsAt(digits: string, i: nat)
    requires |digits| % 2 == 0 && 2 * i + 1 < |digits|
    ensures 3 * i + 1 < |Colons(digits)| && |Colons(digits)| == |digits| / 2 * 3 - 1
    ensures Colons(digits)[3 * i] == digits[2 * i] && Colons(digits)[3 * i + 1] == digits[2 * i + 1]
    ensures 2 * i + 2 < |digits| ==> 3 * i + 2 < |Colons(digits)| && Colons(digits)[3 * i + 2] == ':'
  {
    if |digits| > 2 {
      ColonsAt(digits[2..], if i == 0 then 0 else i - 1);
    }
  }

  lemma {:induction false} HexAllAt(o: seq<nat>, i: nat)
    requires i < |o| && forall k :: 0 <= k < |o| ==> o[k] <= 255
    ensures 2 * i + 1 < |HexAll(o)|
    ensures HexAll(o)[2 * i] == HexDigit(o[i] / 16) && HexAll(o)[2 * i + 1] == HexDigit(o[i] % 16)
  {
    if i > 0 {
      HexAllAt(o[1..], i - 1);
    }
  }

  /** Six pairs of lower-case hex digits, worth the octets in order, with colons in between. */
  lemma {:induction false} CanonicalReads(o: Octets, i: nat)
    requires i < 6
    ensures |Canonical(o)| == 17
    ensures HexValue(Canonical(o)[3 * i]) >= 0 && HexValue(Canonical(o)[3 * i + 1]) >= 0
    ensures 16 * HexValue(Canonical(o)[3 * i]) + HexValue(Canonical(o)[3 * i + 1]) == o[i]
    ensures !('A' <= Canonical(o)[3 * i] <= 'F') && !('A' <= Canonical(o)[3 * i + 1] <= 'F')
    ensures i < 5 ==> Canonical(o)[3 * i + 2] == ':'
  {
    HexAllShape(o);
    ColonsAt(HexAll(o), i);
    HexAllAt(o, i);
    HexDigitWorth(o[i] / 16);
    HexDigitWorth(o[i] % 16);
  }

  /** A rendering without its separators. */
  function Unseparated(value: string): string {
    if value == "" then ""
    else if value[0] == ':' || value[0] == '-' || value[0] == ' ' then Unseparated(value[1..])
    else [value[0]] + Unseparated(value[1..])
  }

  lemma {:induction false} UnseparatedIsCompact(value: string)
    requires forall i :: 0 <= i < |value| ==> HexValue(value[i]) >= 0 || value[i] == ':' || value[i] == '-' || value[i] == ' '
    ensures Compact(value) == Unseparated(value)
    ensures forall i :: 0 <= i < |Unseparated(value)| ==> HexValue(Unseparated(value)[i]) >= 0
  {
    if value != "" {
      UnseparatedIsCompact(value[1..]);
    }
  }

  lemma LowerIsDigit(c: char, n: nat)
    requires HexValue(c) == n
    ensures n < 16 && Lower(c) == HexDigit(n)
  {
  }

  /**
    Twelve hex digits of either case worth the octets, with colons, dashes and spaces anywhere or nowhere,
    are spelled canonically by both functions.
   */
  lemma {:induction false} AnyRendering(value: string, o: Octets)
    requires forall i :: 0 <= i < |value| ==> HexValue(value[i]) >= 0 || value[i] == ':' || value[i] == '-' || value[i] == ' '
    requires |Unseparated(value)| == 12
    requires forall i :: 0 <= i < 6 ==>
               16 * HexValue(Unseparated(value)[2 * i]) + HexValue(Unseparated(value)[2 * i + 1]) == o[i]
    ensures FormatMac(value) == Canonical(o) && NormalizeMac(Some(value)) == Normal(Canonical(o))
  {
    UnseparatedIsCompact(value);
    AllSpelled(Unseparated(value), o);
    NoDots(value);
    HexSpelling(value, o);
  }

  lemma NoDots(value: string)
    requires forall i :: 0 <= i < |value| ==> HexValue(value[i]) >= 0 || value[i] == ':' || value[i] == '-' || value[i] == ' '
    ensures '.' !in value
  {
  }

  lemma AllSpelled(digits: string, o: Octets)
    requires |digits| == 12 && forall k :: 0 <= k < 12 ==> HexValue(digits[k]) >= 0
    requires forall i :: 0 <= i < 6 ==> 16 * HexValue(digits[2 * i]) + HexValue(digits[2 * i + 1]) == o[i]
    ensures LowerAll(digits) == HexAll(o)
  {
    HexAllShape(o);
    SpelledFrom(digits, o, 0);
    assert LowerAll(digits)[0..] == LowerAll(digits) && HexAll(o)[0..] == HexAll(o);
  }

  lemma SpelledFrom(digits: string, o: Octets, i: nat)
    requires i <= 6 && |digits| == 12 && forall k :: 0 <= k < 12 ==> HexValue(digits[k]) >= 0
    requires forall k :: 0 <= k < 6 ==> 16 * HexValue(digits[2 * k]) + HexValue(digits[2 * k + 1]) == o[k]
    requires |HexAll(o)| == 12
    ensures LowerAll(digits)[2 * i..] == HexAll(o)[2 * i..]
    decreases 6 - i
  {
    if i < 6 {
      var a, b := LowerAll(digits), HexAll(o);
      SpelledFrom(digits, o, i + 1);
      PairSpelled(digits, o, i);
      assert a[2 * i..] == [a[2 * i], a[2 * i + 1]] + a[2 * (i + 1)..];
      assert b[2 * i..] == [b[2 * i], b[2 * i + 1]] + b[2 * (i + 1)..];
    }
  }

  lemma PairSpelled(digits: string, o: Octets, i: nat)
    requires i < 6 && |digits| == 12 && forall k :: 0 <= k < 12 ==> HexValue(digits[k]) >= 0
    requires 16 * HexValue(digits[2 * i]) + HexValue(digits[2 * i + 1]) == o[i]
    ensures |HexAll(o)| == 12
    ensures Lower(digits[2 * i]) == HexAll(o)[2 * i] && Lower(digits[2 * i + 1]) == HexAll(o)[2 * i + 1]
  {
    HexAllShape(o);
    HexAllAt(o, i);
    var a, b := HexValue(digits[2 * i]), HexValue(digits[2 * i + 1]);
    LowerIsDigit(digits[2 * i], a);
    LowerIsDigit(digits[2 * i + 1], b);
    assert o[i] / 16 == a && o[i] % 16 == b;
  }

  /** Tab, line feed, vertical tab, form feed, carriage return, the four separators 28 to 31, space. */
  predicate Blank(s: string) {
    forall i :: 0 <= i < |s| ==> s[i] as int in {9, 10, 11, 12, 13, 28, 29, 30, 31, 32}
  }

  lemma {:induction false} PaddingStripped(a: string, s: string, b: string)
    requires Blank(a) && Blank(b)
    ensures Strip(a + s + b) == Strip(s)
    decreases |a| + |s| + |b|
  {
    if a != "" {
      assert (a + s + b)[1..] == a[1..] + s + b;
      PaddingStripped(a[1..], s, b);
    } else {
      assert a + s + b == s + b;
      if s == "" {
        if b != "" {
          assert a + s + b == b && IsSpace(b[0]);
          assert "" + "" + b[1..] == b[1..];
          PaddingStripped("", "", b[1..]);
        }
      } else if IsSpace(s[0]) {
        assert (s + b)[1..] == "" + s[1..] + b;
        PaddingStripped("", s[1..], b);
      } else if b != "" {
        var front := b[..|b| - 1];
        assert (s + b)[..|s + b| - 1] == "" + s + front;
        PaddingStripped("", s, front);
      } else {
        assert s + b == s;
      }
    }
  }

  /** Blanks around a value change nothing, and nothing but blanks is an absent MAC. */
  lemma {:induction false} PaddingIgnored(a: string, s: string, b: string)
    requires Blank(a) && Blank(b)
    ensures FormatMac(a + s + b) == FormatMac(s)
    ensures NormalizeMac(Some(a)) == Absent
  {
    PaddingStripped(a, s, b);
    PaddingStripped(a, "", "");
    assert a + "" + "" == a;
  }

  /** The positions of the hex digits. */
  function HexAt(value: string): set<nat> {
    set i: nat | i < |value| && HexValue(value[i]) >= 0
  }

  lemma {:induction false} CompactCounts(value: string)
    ensures |Compact(value)| == |HexAt(value)|
  {
    if value != "" {
      var n := |value| - 1;
      var front := value[..n];
      CompactCounts(front);
      assert value == front + [value[n]];
      CompactAppend(front, [value[n]]);
      assert HexAt(value) == if HexValue(value[n]) >= 0 then HexAt(front) + {n} else HexAt(front);
    }
  }

  lemma {:induction false} StripsToNothing(value: string)
    ensures Strip(value) == "" <==> Blank(value)
  {
    if value != "" {
      if IsSpace(value[0]) {
        StripsToNothing(value[1..]);
        assert value == [value[0]] + value[1..];
      } else if IsSpace(value[|value| - 1]) {
        StripsToNothing(value[..|value| - 1]);
      }
    }
  }

  /** A submitted MAC is absent exactly when missing or blank, and otherwise invalid exactly without twelve hex digits. */
  lemma {:induction false} NormalizeExactly(value: Option<string>)
    ensures NormalizeMac(value).Absent? <==> value.None? || Blank(value.value)
    ensures NormalizeMac(value).Invalid? <==> value.Some? && !Blank(value.value) && |HexAt(value.value)| != 12
  {
    if value.Some? {
      StripsToNothing(value.value);
      CompactCounts(value.value);
    }
  }

  /** A value that is neither six octets nor twelve hex digits is stripped and put in lower case. */
  lemma {:induction false} OthersLowered(value: string, i: nat)
    requires DottedOctets(Strip(value)).None? && |HexAt(value)| != 12 && i < |Strip(value)|
    ensures |FormatMac(value)| == |Strip(value)|
    ensures FormatMac(value)[i] == if 'A' <= Strip(value)[i] <= 'Z' then (Strip(value)[i] as int - 'A' as int + 'a' as int) as char
                                   else Strip(value)[i]
  {
    CompactCounts(value);
    CompactStrip(value);
  }
}
