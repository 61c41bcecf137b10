// The Raspberry Pi's capture file names (raspberry-pi/imagecapture.py,
// `get_incremented_timestamped_name`): names of the form `base_N_YYYYMMDD_HHMMSS.ext`
// already in the folder are parsed, and the next name carries max N + 1, zero-padded
// to three digits, and the capture timestamp. The directory listing and the timestamp
// are parameters.
module ImageCapture {
  import opened Common

  /** The default base name and extension. */
  const BaseName: string := "starfield"
  const Extension: string := ".jpg"

  predicate IsDigit(c: char)
  {
    '0' <= c <= '9'
  }

  predicate AllDigits(s: string)
  {
    forall i :: 0 <= i < |s| ==> IsDigit(s[i])
  }

  /** `int(s)` for a string of ASCII digits. */
  function Value(s: string): nat
    requires AllDigits(s)
  {
    if s == [] then 0
    else
      assert AllDigits(s[..|s| - 1]);
      Value(s[..|s| - 1]) * 10 + (s[|s| - 1] as int - '0' as int)
  }

  /** The length of the run of digits at the front of `s`. */
  function DigitRun(s: string): (n: nat)
    ensures n <= |s| && AllDigits(s[..n]) && (n < |s| ==> !IsDigit(s[n]))
  {
    if s == [] || !IsDigit(s[0]) then 0
    else
      var n := 1 + DigitRun(s[1..]);
      assert s[..n] == [s[0]] + s[1..][..n - 1];
      n
  }

  // ---------------------------------------------------------------------------
  // Matching `base_(\d+)_\d{8}_\d{6}ext` at the start of a name
  // ---------------------------------------------------------------------------

  /** What must follow the captured number: `_`, 8 digits, `_`, 6 digits, then the
      extension literally; anything may come after it, since `re.match` anchors only at
      the start. */
  predicate MatchesTail(after: string, ext: string)
  {
    |after| >= 16 + |ext| && after[0] == '_' && AllDigits(after[1..9]) && after[9] == '_'
    && AllDigits(after[10..16]) && after[16..16 + |ext|] == ext
  }

  /** `pattern.match(name)`, giving `int(m.group(1))`. The escaped base name and extension
      match literally. `\d+` is followed by `_`, which is not a digit, so the group is the
      whole run of digits after `base_`. */
  function ParseNumber(name: string, base: string, ext: string): (r: Option<nat>)
    ensures r.Some? ==> |name| >= |base| + 18 + |ext| && name[..|base|] == base && name[|base|] == '_'
  {
    if |name| < |base| + 1 || name[..|base|] != base || name[|base|] != '_' then None
    else
      var rest := name[|base| + 1..];
      var n := DigitRun(rest);
      if n == 0 || !MatchesTail(rest[n..], ext) then None
      else Some(Value(rest[..n]))
  }

  /** `numbers`: the captured number of each matching name, in listing order. */
  function Numbers(names: seq<string>, base: string, ext: string): (r: seq<nat>)
    ensures |r| <= |names|
  {
    if names == [] then []
    else
      Numbers(names[..|names| - 1], base, ext)
      + match ParseNumber(names[|names| - 1], base, ext) case None => [] case Some(n) => [n]
  }

  /** `max(ns, default=0)`. */
  function Max(ns: seq<nat>): nat
  {
    if ns == [] then 0
    else
      var m := Max(ns[..|ns| - 1]);
      if ns[|ns| - 1] > m then ns[|ns| - 1] else m
  }

  /** `next_num`. */
  function NextNumber(names: seq<string>, base: string, ext: string): (n: nat)
    ensures n >= 1
  {
    Max(Numbers(names, base, ext)) + 1
  }

  // ---------------------------------------------------------------------------
  // Formatting
  // ---------------------------------------------------------------------------

  function DigitChar(d: nat): (c: char)
    requires d < 10
    ensures IsDigit(c) && c as int - '0' as int == d
  {
    (d + '0' as int) as char
  }

  /** `str(n)`: the decimal digits of n. */
  function Decimal(n: nat): (s: string)
    ensures |s| >= 1 && AllDigits(s)
  {
    if n < 10 then [DigitChar(n)] else Decimal(n / 10) + [DigitChar(n % 10)]
  }

  function Zeros(k: nat): (s: string)
    ensures |s| == k && AllDigits(s)
  {
    seq(k, _ => '0')
  }

  /** `f"{n:03d}"`: the decimal digits of n, left-padded with zeros to three. */
  function Pad3(n: nat): (s: string)
    ensures |s| >= 3 && AllDigits(s)
  {
    var d := Decimal(n);
    if |d| < 3 then Zeros(3 - |d|) + d else d
  }

  /** The name `get_incremented_timestamped_name` returns. */
  function NextName(names: seq<string>, timestamp: string, base: string, ext: string): (r: string)
    ensures |r| >= |base| + 4 + |timestamp| + |ext|
    ensures r[..|base|] == base && r[|base|] == '_' && r[|r| - |ext|..] == ext
  {
    base + "_" + Pad3(NextNumber(names, base, ext)) + "_" + timestamp + ext
  }

  // ---------------------------------------------------------------------------
  // Properties
  // ---------------------------------------------------------------------------

  /** `max` bounds every element and, on a non-empty list, is one of them. */
  lemma {:induction false} MaxIsGreatest(ns: seq<nat>)
    ensures forall k :: 0 <= k < |ns| ==> ns[k] <= Max(ns)
    ensures ns == [] ==> Max(ns) == 0
    ensures ns != [] ==> Max(ns) in ns
  {
    if ns != [] {
      var init := ns[..|ns| - 1];
      MaxIsGreatest(init);
      assert forall k :: 0 <= k < |init| ==> init[k] == ns[k];
      if init != [] && ns[|ns| - 1] <= Max(init) {
        var k :| 0 <= k < |init| && init[k] == Max(init);
        assert ns[k] == Max(ns);
      }
    }
  }

  /** `numbers` holds n exactly when some name in the listing matches and captures n. */
  lemma {:induction false} NumbersMember(names: seq<string>, base: string, ext: string, n: nat)
    ensures n in Numbers(names, base, ext) <==>
      exists i :: 0 <= i < |names| && ParseNumber(names[i], base, ext) == Some(n)
  {
    if names != [] {
      var init := names[..|names| - 1];
      NumbersMember(init, base, ext, n);
      assert forall i :: 0 <= i < |init| ==> init[i] == names[i];
      if n in Numbers(names, base, ext) && n !in Numbers(init, base, ext) {
        assert ParseNumber(names[|names| - 1], base, ext) == Some(n);
      }
      if ParseNumber(names[|names| - 1], base, ext) == Some(n) {
        assert n in Numbers(names, base, ext);
      }
    }
  }

  /** The next number exceeds every number captured from a matching name, and is either
      one more than one of them or 1 when no name matches. */
  lemma NextNumberIsMaxPlusOne(names: seq<string>, base: string, ext: string)
    ensures forall i, n :: 0 <= i < |names| && ParseNumber(names[i], base, ext) == Some(n) ==>
      n < NextNumber(names, base, ext)
    ensures (NextNumber(names, base, ext) == 1 && forall i :: 0 <= i < |names| ==> ParseNumber(names[i], base, ext).None?)
      || exists i :: 0 <= i < |names| && ParseNumber(names[i], base, ext) == Some(NextNumber(names, base, ext) - 1)
  {
    var ns := Numbers(names, base, ext);
    MaxIsGreatest(ns);
    forall i, n | 0 <= i < |names| && ParseNumber(names[i], base, ext) == Some(n)
      ensures n < NextNumber(names, base, ext)
    {
      NumbersMember(names, base, ext, n);
    }
    NumbersMember(names, base, ext, Max(ns));
  }

  /** A name that does not match leaves the next number unchanged. */
  lemma IgnoresNonMatching(names: seq<string>, name: string, base: string, ext: string)
    requires ParseNumber(name, base, ext).None?
    ensures NextNumber(names + [name], base, ext) == NextNumber(names, base, ext)
  {
    assert (names + [name])[..|names|] == names;
    assert Numbers(names + [name], base, ext) == Numbers(names, base, ext);
  }

  /** `re.match` anchors only at the start: characters after the extension do not change
      whether, or what, a name matches. */
  lemma TrailingCharactersIgnored(name: string, junk: string, base: string, ext: string)
    requires ParseNumber(name, base, ext).Some?
    ensures ParseNumber(name + junk, base, ext) == ParseNumber(name, base, ext)
  {
    var whole := name + junk;
    assert whole[..|base|] == name[..|base|];
    var rest := name[|base| + 1..];
    var rest' := whole[|base| + 1..];
    assert rest' == rest + junk;
    var n := DigitRun(rest);
    DigitRunExtends(rest, junk);
    assert rest'[..n] == rest[..n];
    assert rest'[n..] == rest[n..] + junk;
    var after := rest[n..];
    var after' := rest'[n..];
    assert after'[..16 + |ext|] == after[..16 + |ext|];
    assert after'[1..9] == after[1..9] && after'[10..16] == after[10..16];
    assert after'[16..16 + |ext|] == after[16..16 + |ext|];
  }

  lemma DigitRunExtends(s: string, junk: string)
    requires DigitRun(s) < |s|
    ensures DigitRun(s + junk) == DigitRun(s)
  {
    if s != [] && IsDigit(s[0]) {
      assert (s + junk)[1..] == s[1..] + junk;
      DigitRunExtends(s[1..], junk);
    }
  }

  /** Leading zeros do not change the number `int` reads. */
  lemma {:induction false} LeadingZerosIgnored(k: nat, s: string)
    requires AllDigits(s)
    ensures AllDigits(Zeros(k) + s) && Value(Zeros(k) + s) == Value(s)
    decreases |s|
  {
    var z := Zeros(k);
    if s == [] {
      assert z + s == z;
      ZerosValue(k);
    } else {
      var init := s[..|s| - 1];
      LeadingZerosIgnored(k, init);
      assert (z + s)[..|z + s| - 1] == z + init;
    }
  }

  lemma {:induction false} ZerosValue(k: nat)
    ensures Value(Zeros(k)) == 0
  {
    if k > 0 {
      ZerosValue(k - 1);
      assert Zeros(k)[..k - 1] == Zeros(k - 1);
    }
  }

  /** `str` and `int` are inverse on naturals. */
  lemma {:induction false} DecimalValue(n: nat)
    ensures Value(Decimal(n)) == n
  {
    if n >= 10 {
      DecimalValue(n / 10);
      var d := Decimal(n);
      assert d[..|d| - 1] == Decimal(n / 10);
    }
  }

  /** Decimal(n) has more than three digits exactly from 1000 on. */
  lemma {:induction false} DecimalLength(n: nat)
    ensures |Decimal(n)| <= 3 <==> n < 1000
  {
    if n >= 10 {
      DecimalLength(n / 10);
    }
  }

  /** `{n:03d}` is all digits, at least three of them, reads back as n, and for n >= 1000
      is the plain decimal: nothing is cut off. */
  lemma Pad3Digits(n: nat)
    ensures AllDigits(Pad3(n)) && |Pad3(n)| >= 3 && Value(Pad3(n)) == n
    ensures n >= 1000 ==> Pad3(n) == Decimal(n) && |Pad3(n)| > 3
    ensures n < 1000 ==> |Pad3(n)| == 3
  {
    var d := Decimal(n);
    DecimalValue(n);
    DecimalLength(n);
    if |d| < 3 {
      LeadingZerosIgnored(3 - |d|, d);
    }
  }

  /** A `%Y%m%d_%H%M%S` timestamp: 8 digits, `_`, 6 digits. */
  predicate IsTimestamp(ts: string)
  {
    |ts| == 15 && AllDigits(ts[..8]) && ts[8] == '_' && AllDigits(ts[9..])
  }

  /** With a well-formed timestamp the new name matches the pattern itself, its captured
      number is the new N, and that is larger than every number already in the folder. */
  lemma NextNameRoundTrip(names: seq<string>, timestamp: string, base: string, ext: string)
    requires IsTimestamp(timestamp)
    ensures var n := NextNumber(names, base, ext);
      ParseNumber(NextName(names, timestamp, base, ext), base, ext) == Some(n)
      && forall i, m :: 0 <= i < |names| && ParseNumber(names[i], base, ext) == Some(m) ==> m < n
  {
    var n := NextNumber(names, base, ext);
    Pad3Digits(n);
    NameWithDigitsMatches(base, Pad3(n), timestamp, ext);
    NextNumberIsMaxPlusOne(names, base, ext);
  }

  /** `base_D_timestamp.ext` matches for any non-empty digit string D, capturing int(D). */
  lemma NameWithDigitsMatches(base: string, digits: string, timestamp: string, ext: string)
    requires IsTimestamp(timestamp) && AllDigits(digits) && digits != []
    ensures ParseNumber(base + "_" + digits + "_" + timestamp + ext, base, ext) == Some(Value(digits))
  {
    var after := "_" + timestamp + ext;
    var rest := digits + after;
    ConcatRegroups(base, digits, timestamp, ext);
    ParseAfterBase(base, rest, ext);
    DigitRunOf(digits, after);
    assert rest[..|digits|] == digits && rest[|digits|..] == after;
    TimestampTail(timestamp, ext);
  }

  lemma ConcatRegroups(base: string, digits: string, timestamp: string, ext: string)
    ensures base + "_" + digits + "_" + timestamp + ext == base + "_" + (digits + ("_" + timestamp + ext))
  {
  }

  lemma ParseAfterBase(base: string, rest: string, ext: string)
    ensures var n := DigitRun(rest);
      ParseNumber(base + "_" + rest, base, ext)
      == if n == 0 || !MatchesTail(rest[n..], ext) then None else Some(Value(rest[..n]))
  {
    var name := base + "_" + rest;
    assert name[..|base|] == base && name[|base|] == '_' && name[|base| + 1..] == rest;
  }

  lemma TimestampTail(timestamp: string, ext: string)
    requires IsTimestamp(timestamp)
    ensures MatchesTail("_" + timestamp + ext, ext)
  {
    var after := "_" + timestamp + ext;
    assert after[1..9] == timestamp[..8] && after[10..16] == timestamp[9..];
    assert after[16..16 + |ext|] == ext;
  }

  lemma {:induction false} DigitRunOf(digits: string, after: string)
    requires AllDigits(digits) && after != [] && !IsDigit(after[0])
    ensures DigitRun(digits + after) == |digits|
    decreases |digits|
  {
    if digits != [] {
      assert (digits + after)[1..] == digits[1..] + after;
      DigitRunOf(digits[1..], after);
    } else {
      assert digits + after == after;
    }
  }
}
