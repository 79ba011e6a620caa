/**
 * The name allocator of `new`: the sortable prefix (the next counter value,
 * zero-padded, or the current Unix time in seconds), the sanitised file
 * name, and the default extension.
 */
module Naming {
  import opened Wrappers
  import opened Migration

  // ---------------------------------------------------------------------
  // Decimal numerals
  // ---------------------------------------------------------------------

  /** `\d` in a JavaScript regular expression: an ASCII digit. */
  predicate IsDigit(c: char) {
    '0' <= c <= '9'
  }

  predicate AllDigits(s: string) {
    forall k :: 0 <= k < |s| ==> IsDigit(s[k])
  }

  /** The match of `/^\d+/` on `s`: its longest prefix of digits (empty when there is no match). */
  function LeadingDigits(s: string): (d: string)
    ensures |d| <= |s| && d == s[..|d|]
    ensures AllDigits(d)
    ensures |d| < |s| ==> !IsDigit(s[|d|])
  {
    if |s| == 0 || !IsDigit(s[0]) then [] else [s[0]] + LeadingDigits(s[1..])
  }

  /** `parseInt(d, 10)` on a string of digits. */
  function DecimalValue(d: string): nat
    requires AllDigits(d)
  {
    if |d| == 0 then 0 else DecimalValue(d[..|d| - 1]) * 10 + (d[|d| - 1] as int - '0' as int)
  }

  function DigitChar(n: nat): (c: char)
    requires n < 10
    ensures IsDigit(c) && c as int - '0' as int == n
  {
    ['0', '1', '2', '3', '4', '5', '6', '7', '8', '9'][n]
  }

  /**
   * `String(n)` for a non-negative integer: the canonical decimal numeral,
   * which reads back as `n` and has no leading zero unless it is "0".
   */
  function DecimalString(n: nat): (s: string)
    ensures |s| > 0 && AllDigits(s)
    ensures DecimalValue(s) == n
    ensures |s| > 1 ==> s[0] != '0'
    decreases n
  {
    if n < 10 then [DigitChar(n)]
    else
      var s := DecimalString(n / 10) + [DigitChar(n % 10)];
      assert s[..|s| - 1] == DecimalString(n / 10);
      s
  }

  /** `"0".repeat(n)`. */
  function Zeros(n: nat): (z: string)
    ensures |z| == n && forall k :: 0 <= k < n ==> z[k] == '0'
  {
    seq(n, _ => '0')
  }

  /** Leading zeros do not change the value of a numeral. */
  lemma {:induction false} ZerosValue(n: nat, d: string)
    requires AllDigits(d)
    ensures AllDigits(Zeros(n) + d)
    ensures DecimalValue(Zeros(n) + d) == DecimalValue(d)
    decreases |d|
  {
    var s := Zeros(n) + d;
    assert AllDigits(s) by {
      forall k | 0 <= k < |s| ensures IsDigit(s[k]) {
        if k >= n { assert s[k] == d[k - n]; }
      }
    }
    if |d| == 0 {
      assert s == Zeros(n);
      ZerosAreZero(n);
    } else {
      var d' := d[..|d| - 1];
      ZerosValue(n, d');
      assert s[..|s| - 1] == Zeros(n) + d';
    }
  }

  lemma {:induction false} ZerosAreZero(n: nat)
    ensures DecimalValue(Zeros(n)) == 0
  {
    if n > 0 {
      assert Zeros(n)[..n - 1] == Zeros(n - 1);
      ZerosAreZero(n - 1);
    }
  }

  /**
   * `s.padStart(length, "0")`: zeros are added in front up to `length`
   * characters; a string already that long (or a length of zero or less)
   * is returned unchanged, never truncated.
   */
  function PadStart(s: string, length: int): (r: string)
    ensures |r| == if length <= |s| then |s| else length
    ensures r == Zeros(|r| - |s|) + s
  {
    if length <= |s| then
      assert s == Zeros(0) + s;
      s
    else Zeros(length - |s|) + s
  }

  // ---------------------------------------------------------------------
  // The counter prefix
  // ---------------------------------------------------------------------

  /** The last discovered name exists and starts with a number. */
  predicate Numbered(last: Option<string>) {
    last.Some? && |LeadingDigits(last.value)| > 0
  }

  /** One more than the leading number of the last discovered name. */
  function NextValue(last: Option<string>): nat
    requires Numbered(last)
  {
    DecimalValue(LeadingDigits(last.value)) + 1
  }

  /**
   * The counter prefix of `new` given the name of the last discovered
   * migration (`migrations.pop()`, absent when there is none): one more than
   * its leading number, zero-padded to `length`; `length` zeros when there
   * is no leading number, which throws a range error for a negative length.
   */
  function NextPrefix(last: Option<string>, length: int): (r: Result<string, Error>)
    ensures Numbered(last) ==>
      var next := DecimalString(NextValue(last));
      && r.Success? && AllDigits(r.value)
      && DecimalValue(r.value) == NextValue(last)
      && |r.value| == (if length <= |next| then |next| else length)
    ensures !Numbered(last) ==>
      if length < 0 then r == Failure(InvalidLength(length))
      else r.Success? && |r.value| == length && AllDigits(r.value) && DecimalValue(r.value) == 0
  {
    if Numbered(last) then
      var next := DecimalString(NextValue(last));
      var p := PadStart(next, length);
      ZerosValue(|p| - |next|, next);
      Success(p)
    else if length < 0 then
      Failure(InvalidLength(length))
    else
      ZerosAreZero(length);
      Success(Zeros(length))
  }

  /** A numeral followed by a non-digit is read back as exactly that numeral. */
  lemma {:induction false} LeadingDigitsOf(p: string, rest: string)
    requires AllDigits(p) && |rest| > 0 && !IsDigit(rest[0])
    ensures LeadingDigits(p + rest) == p
    decreases |p|
  {
    if |p| > 0 {
      LeadingDigitsOf(p[1..], rest);
      assert (p + rest)[1..] == p[1..] + rest;
    }
  }

  // ---------------------------------------------------------------------
  // The timestamp prefix
  // ---------------------------------------------------------------------

  /** ECMAScript ToInt32 on an integer, as `x | 0` applies it: wrap modulo 2^32 into the signed range. */
  function ToInt32(x: int): (r: int)
    ensures -0x8000_0000 <= r < 0x8000_0000
    ensures (r - x) % 0x1_0000_0000 == 0
  {
    var m := x % 0x1_0000_0000;
    if m >= 0x8000_0000 then m - 0x1_0000_0000 else m
  }

  /** `String(i)` for any integer. */
  function IntString(i: int): (s: string)
    ensures i >= 0 ==> s == DecimalString(i)
    ensures i < 0 ==> |s| > 1 && s[0] == '-' && s[1..] == DecimalString(-i)
  {
    if i < 0 then "-" + DecimalString(-i) else DecimalString(i)
  }

  /** `(Date.now() / 1e3) | 0` as written: the seconds, truncated and then wrapped to a signed 32-bit integer. */
  function TimestampPrefixAsWritten(nowMs: nat): string {
    IntString(ToInt32(nowMs / 1000))
  }

  /** The prefix the timestamp option intends: the Unix time in whole seconds, as a numeral. */
  function TimestampPrefix(nowMs: nat): (r: string)
    ensures AllDigits(r) && DecimalValue(r) == nowMs / 1000
  {
    DecimalString(nowMs / 1000)
  }

  /** Until 03:14:08 UTC on 19 January 2038 the written expression gives the intended prefix. */
  lemma TimestampAgreesBefore2038(nowMs: nat)
    requires nowMs < 0x8000_0000 * 1000
    ensures TimestampPrefixAsWritten(nowMs) == TimestampPrefix(nowMs)
  {
    var secs := nowMs / 1000;
    assert secs * 1000 <= nowMs;
    assert secs < 0x8000_0000;
    assert secs % 0x1_0000_0000 == secs;
    assert ToInt32(secs) == secs;
  }

  /**
   * From then on, for the following 2^31 seconds, `| 0` wraps the seconds
   * negative: the prefix starts with '-' and has no leading number.
   */
  lemma TimestampWrapsFrom2038(nowMs: nat)
    requires 0x8000_0000 * 1000 <= nowMs < 0x1_0000_0000 * 1000
    ensures TimestampPrefixAsWritten(nowMs)[0] == '-'
    ensures LeadingDigits(TimestampPrefixAsWritten(nowMs)) == []
  {
    var secs := nowMs / 1000;
    assert 0x8000_0000 <= secs < 0x1_0000_0000;
    assert ToInt32(secs) == secs - 0x1_0000_0000;
  }

  // ---------------------------------------------------------------------
  // The file name
  // ---------------------------------------------------------------------

  /** `\s` in a JavaScript regular expression: the ECMAScript white-space and line-terminator characters. */
  predicate IsSpace(c: char) {
    c == '\t' || c == '\n' || c == '\U{000B}' || c == '\U{000C}' || c == '\r' || c == ' ' ||
    c == '\U{00A0}' || c == '\U{1680}' || ('\U{2000}' <= c <= '\U{200A}') ||
    c == '\U{2028}' || c == '\U{2029}' || c == '\U{202F}' || c == '\U{205F}' ||
    c == '\U{3000}' || c == '\U{FEFF}'
  }

  predicate NoSpace(s: string) {
    forall k :: 0 <= k < |s| ==> !IsSpace(s[k])
  }

  predicate AllSpace(s: string) {
    forall k :: 0 <= k < |s| ==> IsSpace(s[k])
  }

  /** `s` without its leading run of white space. */
  function SkipSpaces(s: string): (r: string)
    ensures |r| <= |s|
    ensures |s| > 0 && IsSpace(s[0]) ==> |r| < |s|
    ensures |r| > 0 ==> !IsSpace(r[0])
  {
    if |s| == 0 || !IsSpace(s[0]) then s else SkipSpaces(s[1..])
  }

  /** `s.replace(/\s+/g, "-")`: every maximal run of white space becomes one hyphen. */
  function Sanitize(s: string): (r: string)
    ensures NoSpace(r)
    ensures |r| <= |s|
    decreases |s|
  {
    if |s| == 0 then []
    else if IsSpace(s[0]) then "-" + Sanitize(SkipSpaces(s))
    else [s[0]] + Sanitize(s[1..])
  }

  /** Skipping leaves a suffix, which is empty exactly when `s` is all white space. */
  lemma {:induction false} SkipSpacesSuffix(s: string)
    ensures var r := SkipSpaces(s); r == s[|s| - |r|..] && (|r| == 0 <==> AllSpace(s))
    decreases |s|
  {
    if |s| > 0 && IsSpace(s[0]) {
      SkipSpacesSuffix(s[1..]);
      assert AllSpace(s) <==> AllSpace(s[1..]) by {
        if AllSpace(s[1..]) {
          forall k | 0 <= k < |s| ensures IsSpace(s[k]) {
            if k > 0 { assert s[k] == s[1..][k - 1]; }
          }
        }
      }
    } else if |s| > 0 {
      assert !AllSpace(s);
    }
  }

  /** A name without white space is left as it is. */
  lemma {:induction false} SanitizeKeepsClean(s: string)
    requires NoSpace(s)
    ensures Sanitize(s) == s
    decreases |s|
  {
    if |s| > 0 {
      SanitizeKeepsClean(s[1..]);
    }
  }

  /** A non-empty run of white space becomes a single hyphen. */
  lemma SanitizeRun(w: string)
    requires |w| > 0 && AllSpace(w)
    ensures Sanitize(w) == "-"
  {
    SkipSpacesOfConcat(w, []);
    assert w + [] == w;
  }

  /** Skipping a leading run that ends inside `a` leaves `b` untouched. */
  lemma {:induction false} SkipSpacesOfConcat(a: string, b: string)
    requires |a| == 0 || |b| == 0 || !IsSpace(a[|a| - 1]) || !IsSpace(b[0])
    ensures AllSpace(a) ==> SkipSpaces(a + b) == SkipSpaces(b)
    ensures !AllSpace(a) ==> SkipSpaces(a + b) == SkipSpaces(a) + b
    decreases |a|
  {
    if |a| == 0 {
      assert a + b == b;
    } else if IsSpace(a[0]) {
      var t := a[1..];
      assert (a + b)[0] == a[0];
      assert (a + b)[1..] == t + b;
      assert SkipSpaces(a + b) == SkipSpaces(t + b);
      assert SkipSpaces(a) == SkipSpaces(t);
      if |t| > 0 {
        assert t[|t| - 1] == a[|a| - 1];
      }
      SkipSpacesOfConcat(t, b);
      assert AllSpace(a) <==> AllSpace(t) by {
        if AllSpace(t) {
          forall k | 0 <= k < |a| ensures IsSpace(a[k]) {
            if k > 0 { assert a[k] == t[k - 1]; }
          }
        }
        if AllSpace(a) {
          forall k | 0 <= k < |t| ensures IsSpace(t[k]) {
            assert t[k] == a[k + 1];
          }
        }
      }
    } else {
      assert (a + b)[0] == a[0];
      assert !AllSpace(a);
    }
  }

  /**
   * Sanitising works piecewise when the cut does not fall inside a run of
   * white space; with the two lemmas above this determines `Sanitize`.
   */
  lemma {:induction false} SanitizeConcat(a: string, b: string)
    requires |a| == 0 || |b| == 0 || !IsSpace(a[|a| - 1]) || !IsSpace(b[0])
    ensures Sanitize(a + b) == Sanitize(a) + Sanitize(b)
    decreases |a|
  {
    if |a| == 0 {
      assert a + b == b;
    } else if IsSpace(a[0]) {
      SkipSpacesSuffix(a);
      if AllSpace(a) {
        SanitizeConcatRun(a, b);
      } else {
        var a' := SkipSpaces(a);
        assert a'[|a'| - 1] == a[|a| - 1];
        SanitizeConcat(a', b);
        SanitizeConcatSpaceStep(a, b);
      }
    } else {
      if |a| > 1 {
        assert a[1..][|a| - 2] == a[|a| - 1];
      }
      SanitizeConcat(a[1..], b);
      SanitizeConcatCharStep(a, b);
    }
  }

  /** `SanitizeConcat` when `a` is one white-space run. */
  lemma SanitizeConcatRun(a: string, b: string)
    requires |a| > 0 && AllSpace(a)
    requires |b| == 0 || !IsSpace(b[0])
    ensures Sanitize(a + b) == Sanitize(a) + Sanitize(b)
  {
    assert (a + b)[0] == a[0];
    SanitizeSpaceHead(a + b);
    SanitizeSpaceHead(a);
    SkipSpacesOfConcat(a, b);
    SkipSpacesSuffix(a);
    SkipSpacesOfClean(b);
  }

  /** `SanitizeConcat` for a leading white-space run that ends inside `a`, given the rest. */
  lemma SanitizeConcatSpaceStep(a: string, b: string)
    requires |a| > 0 && IsSpace(a[0]) && !AllSpace(a)
    requires |b| == 0 || !IsSpace(a[|a| - 1]) || !IsSpace(b[0])
    requires Sanitize(SkipSpaces(a) + b) == Sanitize(SkipSpaces(a)) + Sanitize(b)
    ensures Sanitize(a + b) == Sanitize(a) + Sanitize(b)
  {
    var x, y := Sanitize(SkipSpaces(a)), Sanitize(b);
    SanitizeOfSpaceConcat(a, b);
    SanitizeSpaceHead(a);
    ConcatAssoc("-", x, y);
  }

  lemma ConcatAssoc(c: string, x: string, y: string)
    ensures c + (x + y) == (c + x) + y
  {
  }

  /** A leading white-space run that ends inside `a` becomes one hyphen in front of the rest of `a + b`. */
  lemma SanitizeOfSpaceConcat(a: string, b: string)
    requires |a| > 0 && IsSpace(a[0]) && !AllSpace(a)
    requires |b| == 0 || !IsSpace(a[|a| - 1]) || !IsSpace(b[0])
    ensures Sanitize(a + b) == "-" + Sanitize(SkipSpaces(a) + b)
  {
    assert (a + b)[0] == a[0];
    SkipSpacesOfConcat(a, b);
    SanitizeSpaceHead(a + b);
  }

  /** `SanitizeConcat` for a leading non-space character of `a`, given the rest. */
  lemma SanitizeConcatCharStep(a: string, b: string)
    requires |a| > 0 && !IsSpace(a[0])
    requires Sanitize(a[1..] + b) == Sanitize(a[1..]) + Sanitize(b)
    ensures Sanitize(a + b) == Sanitize(a) + Sanitize(b)
  {
    SanitizeCharHead(a, b);
    ConcatAssoc([a[0]], Sanitize(a[1..]), Sanitize(b));
  }

  /** One step of `Sanitize` on a leading white-space run. */
  lemma SanitizeSpaceHead(s: string)
    requires |s| > 0 && IsSpace(s[0])
    ensures Sanitize(s) == "-" + Sanitize(SkipSpaces(s))
  {
  }

  /** One step of `Sanitize` on a leading non-space character of `a + b`. */
  lemma SanitizeCharHead(a: string, b: string)
    requires |a| > 0 && !IsSpace(a[0])
    ensures Sanitize(a) == [a[0]] + Sanitize(a[1..])
    ensures Sanitize(a + b) == [a[0]] + Sanitize(a[1..] + b)
  {
    assert (a + b)[0] == a[0];
    assert (a + b)[1..] == a[1..] + b;
  }

  lemma SkipSpacesOfClean(b: string)
    requires |b| == 0 || !IsSpace(b[0])
    ensures SkipSpaces(b) == b
  {
  }

  /** `/\.\w+$/`: the name ends in a dot followed by one or more word characters. */
  predicate IsWord(c: char) {
    ('a' <= c <= 'z') || ('A' <= c <= 'Z') || ('0' <= c <= '9') || c == '_'
  }

  predicate HasExtension(s: string) {
    exists k :: 0 <= k < |s| - 1 && s[k] == '.' && forall m :: k < m < |s| ==> IsWord(s[m])
  }

  /** The default extension is attached unless the name already ends in one. */
  function WithExtension(name: string, esm: bool): (r: string)
    ensures HasExtension(r)
    ensures |r| >= |name| && r[..|name|] == name
    ensures HasExtension(name) <==> r == name
    ensures !HasExtension(name) ==> r == name + (if esm then ".mjs" else ".js")
  {
    if HasExtension(name) then name
    else
      var r := name + (if esm then ".mjs" else ".js");
      assert r[|name|] == '.' && forall m :: |name| < m < |r| ==> IsWord(r[m]);
      r
  }

  /** Attaching the default extension twice changes nothing the second time. */
  lemma WithExtensionIdempotent(name: string, esm: bool, esm': bool)
    ensures WithExtension(WithExtension(name, esm), esm') == WithExtension(name, esm)
  {
  }

  /**
   * `new`'s file name: the prefix (the timestamp when a clock reading is
   * given, otherwise the next counter value after the last discovered
   * migration), a hyphen, the sanitised name, and the default extension
   * when the result does not already end in one.
   */
  function NewFilename(migrations: seq<MigrationFile>, filename: string, length: int, esm: bool, now: Option<nat>)
    : (r: Result<string, Error>)
    ensures r.Success? ==> HasExtension(r.value)
    ensures now.Some? ==> r.Success? && LeadingDigits(r.value) == TimestampPrefix(now.value)
    ensures now.None? ==> r.Success? == NextPrefix(LastName(migrations), length).Success?
    ensures now.None? && r.Success? ==>
      var p := NextPrefix(LastName(migrations), length).value;
      && LeadingDigits(r.value) == p
      && |r.value| >= |p| + 1 + |Sanitize(filename)|
      && r.value[..|p| + 1 + |Sanitize(filename)|] == p + "-" + Sanitize(filename)
    ensures r.Success? ==>
      var p := if now.Some? then TimestampPrefix(now.value) else NextPrefix(LastName(migrations), length).value;
      var b := p + "-" + Sanitize(filename);
      r.value == b || r.value == b + (if esm then ".mjs" else ".js")
    ensures r.Success? ==>
      var p := if now.Some? then TimestampPrefix(now.value) else NextPrefix(LastName(migrations), length).value;
      var b := p + "-" + Sanitize(filename);
      HasExtension(b) <==> r.value == b
  {
    var prefix :- if now.Some? then Success(TimestampPrefix(now.value)) else NextPrefix(LastName(migrations), length);
    var base := prefix + ("-" + Sanitize(filename));
    assert base == prefix + "-" + Sanitize(filename);
    var r := WithExtension(base, esm);
    FilenameParts(prefix, Sanitize(filename), r);
    Success(r)
  }

  /**
   * Until 2038 the timestamp branch reads back exactly the prefix that the
   * written expression `(Date.now() / 1e3) | 0` produces.
   */
  lemma NewFilenameBefore2038(migrations: seq<MigrationFile>, filename: string, length: int, esm: bool, nowMs: nat)
    requires nowMs < 0x8000_0000 * 1000
    ensures var r := NewFilename(migrations, filename, length, esm, Some(nowMs));
      r.Success? && LeadingDigits(r.value) == TimestampPrefixAsWritten(nowMs)
  {
    TimestampAgreesBefore2038(nowMs);
  }

  /** `migrations.pop()`: the name of the last discovered migration, if any. */
  function LastName(migrations: seq<MigrationFile>): Option<string> {
    if |migrations| == 0 then None else Some(migrations[|migrations| - 1].name)
  }

  /** A name built as numeral, hyphen, rest, and possibly more, reads back its numeral. */
  lemma FilenameParts(prefix: string, name: string, r: string)
    requires AllDigits(prefix)
    requires |r| >= |prefix| + 1 + |name| && r[..|prefix| + 1 + |name|] == prefix + ("-" + name)
    ensures LeadingDigits(r) == prefix
    ensures r[..|prefix| + 1 + |name|] == prefix + "-" + name
  {
    var w := prefix + ("-" + name);
    PrefixOfPrefix(r, w, |prefix|);
    assert w[..|prefix|] == prefix;
    var rest := r[|prefix|..];
    assert rest[0] == r[|prefix|] == w[|prefix|] == '-';
    assert r == r[..|prefix|] + rest;
    LeadingDigitsOf(prefix, rest);
    assert prefix + "-" + name == w;
  }

  /** A prefix of a prefix of `r` is a prefix of `r`. */
  lemma PrefixOfPrefix(r: string, w: string, m: nat)
    requires m < |w| <= |r| && r[..|w|] == w
    ensures r[..m] == w[..m] && r[m] == w[m]
  {
    assert r[m] == r[..|w|][m];
  }

  /**
   * The counter keeps counting: once the created file is discovered as the
   * newest migration, the next `new` gets a prefix one higher.
   */
  lemma NewFilenameAdvances(migrations: seq<MigrationFile>, filename: string, length: int, esm: bool,
                            path: string, filename': string, esm': bool)
    requires Numbered(LastName(migrations)) || length > 0
    ensures NewFilename(migrations, filename, length, esm, None).Success?
    ensures var f := NewFilename(migrations, filename, length, esm, None).value;
      var r := NewFilename(migrations + [MigrationFile(f, path)], filename', length, esm', None);
      r.Success? && DecimalValue(LeadingDigits(r.value)) == DecimalValue(LeadingDigits(f)) + 1
  {
    var f := NewFilename(migrations, filename, length, esm, None).value;
    assert LastName(migrations + [MigrationFile(f, path)]) == Some(f);
    var p := NextPrefix(LastName(migrations), length).value;
    assert LeadingDigits(f) == p;
    assert |p| > 0;
  }

  /** `new y` after `00005-x` with a prefix length of 5 creates `00006-y.js`. */
  lemma NewFilenameExample()
    ensures NewFilename([MigrationFile("00005-x", "/migrations/00005-x.js")], "y", 5, false, None) == Success("00006-y.js")
  {
    assert LastName([MigrationFile("00005-x", "/migrations/00005-x.js")]) == Some("00005-x");
    ExamplePrefix();
    ExampleBase();
    ExampleExtension();
  }

  lemma ExamplePrefix()
    ensures NextPrefix(Some("00005-x"), 5) == Success("00006")
  {
    ExampleLeading();
    ExampleValue();
    assert NextValue(Some("00005-x")) == 6;
    assert DecimalString(6) == "6";
    ExamplePad();
  }

  lemma ExampleLeading()
    ensures LeadingDigits("00005-x") == "00005"
  {
    assert AllDigits("00005");
    LeadingDigitsOf("00005", "-x");
    assert "00005" + "-x" == "00005-x";
  }

  lemma ExampleValue()
    ensures DecimalValue("00005") == 5
  {
    ZerosValue(4, "5");
    assert Zeros(4) + "5" == "00005";
  }

  lemma ExamplePad()
    ensures PadStart("6", 5) == "00006"
  {
    assert Zeros(4) == "0000";
  }

  lemma ExampleBase()
    ensures "00006" + ("-" + Sanitize("y")) == "00006-y"
  {
    assert Sanitize("y") == "y";
  }

  lemma ExampleExtension()
    ensures WithExtension("00006-y", false) == "00006-y.js"
  {
    assert !HasExtension("00006-y");
  }
}
