/**
 * Segment naming: a stored segment covering the window [from, to] is the file
 * "<from>-<to>.bloom"; decoding takes the basename of a path and matches it,
 * anchored at the start only, against  (\d+)-(\d+)\.bloom .
 */
module SegmentNamer {
  import opened Wrappers

  const Suffix: string := ".bloom"

  predicate IsDigit(c: char) {
    '0' <= c <= '9'
  }

  predicate AllDigits(s: string) {
    forall i :: 0 <= i < |s| ==> IsDigit(s[i])
  }

  function DigitChar(d: nat): (c: char)
    requires d < 10
    ensures IsDigit(c) && DigitValue(c) == d
  {
    (('0' as int) + d) as char
  }

  function DigitValue(c: char): nat
    requires IsDigit(c)
  {
    (c as int) - ('0' as int)
  }

  /** The decimal rendering of n, as Python's str(int(n)) gives it. */
  function DecimalString(n: nat): (s: string)
    ensures |s| > 0 && AllDigits(s)
    ensures s[0] == '0' ==> s == "0"
  {
    if n < 10 then [DigitChar(n)] else DecimalString(n / 10) + [DigitChar(n % 10)]
  }

  /** The value of a string of decimal digits, as Python's int() reads it (leading zeros allowed). */
  function DecimalValue(s: string): nat
    requires AllDigits(s)
  {
    if s == [] then 0 else DecimalValue(s[..|s| - 1]) * 10 + DigitValue(s[|s| - 1])
  }

  lemma {:induction false} DecimalValueOfString(n: nat)
    ensures DecimalValue(DecimalString(n)) == n
  {
    if n >= 10 {
      var s := DecimalString(n);
      DecimalValueOfString(n / 10);
      assert s[..|s| - 1] == DecimalString(n / 10);
    }
  }

  /** A digit string without a superfluous leading zero is the rendering of its own value. */
  lemma {:induction false} DecimalStringOfValue(s: string)
    requires |s| > 0 && AllDigits(s) && (s[0] == '0' ==> |s| == 1)
    ensures DecimalString(DecimalValue(s)) == s
  {
    var n := DecimalValue(s);
    if |s| == 1 {
      assert s[..|s| - 1] == [];
      assert n == DigitValue(s[0]) < 10;
    } else {
      var p := s[..|s| - 1];
      DecimalStringOfValue(p);
      DecimalValueOfString(DecimalValue(p));
      assert DecimalValue(p) > 0;
      assert n / 10 == DecimalValue(p) && n % 10 == DigitValue(s[|s| - 1]);
      assert n >= 10;
    }
  }

  /** filename_make: the storage key of the window [from, to]. */
  function FilenameMake(from: nat, to: nat): string {
    DecimalString(from) + "-" + DecimalString(to) + Suffix
  }

  /** os.path.basename: the part of the path after its last '/'. */
  function Basename(path: string): (name: string)
    ensures '/' !in name
    ensures |name| <= |path| && path[|path| - |name|..] == name
    ensures |name| < |path| ==> path[|path| - |name| - 1] == '/'
  {
    if path == [] then []
    else if path[|path| - 1] == '/' then []
    else Basename(path[..|path| - 1]) + [path[|path| - 1]]
  }

  /** The length of the longest run of digits at the start of s (what a greedy \d* consumes). */
  function DigitRun(s: string): (k: nat)
    ensures k <= |s| && AllDigits(s[..k])
    ensures k < |s| ==> !IsDigit(s[k])
  {
    if s == [] || !IsDigit(s[0]) then 0
    else
      var k := 1 + DigitRun(s[1..]);
      assert s[..k] == [s[0]] + s[1..][..k - 1];
      k
  }

  /** re.match((\d+)-(\d+)\.bloom, name): anchored at the start, anything may follow ".bloom". */
  function MatchSegmentName(name: string): Option<(nat, nat)> {
    var i := DigitRun(name);
    if i == 0 || i == |name| || name[i] != '-' then None
    else
      var rest := name[i + 1..];
      var j := DigitRun(rest);
      if j == 0 || !(Suffix <= rest[j..]) then None
      else Some((DecimalValue(name[..i]), DecimalValue(rest[..j])))
  }

  /** filename_parse; the AttributeError raised on a failed match becomes None. */
  function FilenameParse(path: string): Option<(nat, nat)> {
    MatchSegmentName(Basename(path))
  }

  /** The regular-expression reading of a segment name: digits, '-', digits, ".bloom", anything. */
  ghost predicate SegmentNameShape(name: string, from: nat, to: nat) {
    exists d1: string, d2: string, tail: string
      :: |d1| > 0 && AllDigits(d1) && |d2| > 0 && AllDigits(d2)
         && name == d1 + "-" + d2 + Suffix + tail
         && DecimalValue(d1) == from && DecimalValue(d2) == to
  }

  lemma {:induction false} DigitRunStopsAt(d: string, rest: string)
    requires AllDigits(d)
    requires rest == [] || !IsDigit(rest[0])
    ensures DigitRun(d + rest) == |d|
  {
    if d != [] {
      assert (d + rest)[1..] == d[1..] + rest;
      DigitRunStopsAt(d[1..], rest);
    }
  }

  /** Every name of the form digits-digits.bloom... decodes to its two numbers. */
  lemma MatchAcceptsShape(name: string, d1: string, d2: string, tail: string)
    requires |d1| > 0 && AllDigits(d1) && |d2| > 0 && AllDigits(d2)
    requires name == d1 + "-" + d2 + Suffix + tail
    ensures MatchSegmentName(name) == Some((DecimalValue(d1), DecimalValue(d2)))
  {
    Reassociate(name, d1, d2, tail);
    MatchParts(name, d1, d2, Suffix + tail);
  }

  lemma Reassociate(name: string, d1: string, d2: string, tail: string)
    requires name == d1 + "-" + d2 + Suffix + tail
    ensures name == d1 + ("-" + (d2 + (Suffix + tail)))
  {
  }

  lemma MatchParts(name: string, d1: string, d2: string, r2: string)
    requires |d1| > 0 && AllDigits(d1) && |d2| > 0 && AllDigits(d2)
    requires Suffix <= r2
    requires name == d1 + ("-" + (d2 + r2))
    ensures MatchSegmentName(name) == Some((DecimalValue(d1), DecimalValue(d2)))
  {
    var r1 := d2 + r2;
    DigitsThenStop(d1, "-" + r1);
    assert name[|d1|] == '-';
    assert name[|d1| + 1..] == r1;
    DigitsThenStop(d2, r2);
  }

  lemma DigitsThenStop(d: string, rest: string)
    requires AllDigits(d) && rest != [] && !IsDigit(rest[0])
    ensures DigitRun(d + rest) == |d|
    ensures (d + rest)[..|d|] == d && (d + rest)[|d|..] == rest
  {
    DigitRunStopsAt(d, rest);
  }

  lemma NoSlashInDigits(d: string)
    requires AllDigits(d)
    ensures '/' !in d
  {
  }

  /** The same for a path: a directory prefix up to the last '/' is ignored. */
  lemma ParseAcceptsPath(dir: string, name: string, d1: string, d2: string, tail: string)
    requires |d1| > 0 && AllDigits(d1) && |d2| > 0 && AllDigits(d2) && '/' !in tail
    requires name == d1 + "-" + d2 + Suffix + tail
    ensures FilenameParse(dir + "/" + name) == Some((DecimalValue(d1), DecimalValue(d2)))
    ensures FilenameParse(name) == Some((DecimalValue(d1), DecimalValue(d2)))
  {
    MatchAcceptsShape(name, d1, d2, tail);
    NoSlashInDigits(d1);
    NoSlashInDigits(d2);
    assert '/' !in Suffix;
    assert '/' !in name;
    BasenameAfterSlash(dir, name);
    BasenameOfPlainName(name);
  }

  /** Conversely, a name decodes only if it has that form. */
  lemma MatchOnlyShape(name: string)
    requires MatchSegmentName(name).Some?
    ensures SegmentNameShape(name, MatchSegmentName(name).value.0, MatchSegmentName(name).value.1)
  {
    var i := DigitRun(name);
    var rest := name[i + 1..];
    var j := DigitRun(rest);
    Recompose(name, i, j);
    ShapeOfParts(name, name[..i], rest[..j], rest[j..][|Suffix|..]);
  }

  /** Cutting a matched name at the two digit runs and the suffix gives back the name. */
  lemma Recompose(name: string, i: nat, j: nat)
    requires i < |name| && name[i] == '-' && j <= |name[i + 1..]| && Suffix <= name[i + 1..][j..]
    ensures var rest := name[i + 1..];
            name == name[..i] + ("-" + (rest[..j] + (Suffix + rest[j..][|Suffix|..])))
  {
    var rest := name[i + 1..];
    SplitAfterPrefix(rest[j..], Suffix);
    assert rest == rest[..j] + rest[j..];
    assert name[i..] == "-" + rest;
    assert name == name[..i] + name[i..];
  }

  lemma SplitAfterPrefix(s: string, p: string)
    requires p <= s
    ensures s == p + s[|p|..]
  {
  }

  lemma ShapeOfParts(name: string, d1: string, d2: string, tail: string)
    requires |d1| > 0 && AllDigits(d1) && |d2| > 0 && AllDigits(d2)
    requires name == d1 + ("-" + (d2 + (Suffix + tail)))
    ensures SegmentNameShape(name, DecimalValue(d1), DecimalValue(d2))
  {
    assert name == d1 + "-" + d2 + Suffix + tail;
  }

  /** The round trip: the name of [from, to] decodes to [from, to], under any directory prefix. */
  lemma ParseMake(dir: string, from: nat, to: nat)
    ensures FilenameParse(FilenameMake(from, to)) == Some((from, to))
    ensures FilenameParse(dir + "/" + FilenameMake(from, to)) == Some((from, to))
  {
    var name := FilenameMake(from, to);
    DecimalValueOfString(from);
    DecimalValueOfString(to);
    MatchAcceptsShape(name + "", DecimalString(from), DecimalString(to), "");
    assert name == DecimalString(from) + "-" + DecimalString(to) + Suffix + "";
    BasenameOfPlainName(name);
    BasenameAfterSlash(dir, name);
  }

  /** Distinct windows get distinct file names. */
  lemma FilenameMakeInjective(from1: nat, to1: nat, from2: nat, to2: nat)
    requires (from1, to1) != (from2, to2)
    ensures FilenameMake(from1, to1) != FilenameMake(from2, to2)
  {
    ParseMake("", from1, to1);
    ParseMake("", from2, to2);
  }

  lemma BasenameOfPlainName(name: string)
    requires '/' !in name
    ensures Basename(name) == name
  {
  }

  lemma {:induction false} BasenameAfterSlash(dir: string, name: string)
    requires '/' !in name
    ensures Basename(dir + "/" + name) == name
  {
    var p := dir + "/" + name;
    if name != [] {
      var init := name[..|name| - 1];
      assert p[..|p| - 1] == dir + "/" + init;
      BasenameAfterSlash(dir, init);
      assert name == init + [name[|name| - 1]];
    }
  }

  /**
   * A timestamp given as digit text and the integer it denotes encode alike, and the text survives
   * when it is canonical (no superfluous leading zero).
   */
  lemma TextTimestampsEncodeAsIntegers(s: string, t: string)
    requires |s| > 0 && AllDigits(s) && |t| > 0 && AllDigits(t)
    ensures FilenameParse(FilenameMake(DecimalValue(s), DecimalValue(t))) == Some((DecimalValue(s), DecimalValue(t)))
    ensures (s[0] == '0' ==> |s| == 1) && (t[0] == '0' ==> |t| == 1)
            ==> FilenameMake(DecimalValue(s), DecimalValue(t)) == s + "-" + t + Suffix
  {
    ParseMake("", DecimalValue(s), DecimalValue(t));
    if (s[0] == '0' ==> |s| == 1) && (t[0] == '0' ==> |t| == 1) {
      DecimalStringOfValue(s);
      DecimalStringOfValue(t);
    }
  }

  /** Names that do not start with digits '-' digits ".bloom" after the last '/' do not decode. */
  lemma ParseRejectsMalformed()
    ensures FilenameParse("a-b.bloom") == None
    ensures FilenameParse("-.bloom") == None
    ensures FilenameParse(".bloom") == None
    ensures FilenameParse("11.bloom") == None
    ensures FilenameParse("1-1") == None
    ensures FilenameParse("dir/a-1.boom") == None
    ensures FilenameParse("1-2.bloom/x") == None
  {
  }

  lemma {:induction false} DecimalValueIgnoresLeadingZero(d: string)
    requires AllDigits(d)
    ensures DecimalValue("0" + d) == DecimalValue(d)
  {
    if d != [] {
      assert ("0" + d)[..|"0" + d| - 1] == "0" + d[..|d| - 1];
      DecimalValueIgnoresLeadingZero(d[..|d| - 1]);
    }
  }

  /**
   * The match is anchored at the start only and int() accepts leading zeros, so decoding is not
   * confined to the names that FilenameMake produces: a zero in front and any text after ".bloom"
   * that has no '/' in it decode to the same window.
   */
  lemma ParseAcceptsNonCanonical(from: nat, to: nat, tail: string)
    requires '/' !in tail
    ensures FilenameParse("0" + FilenameMake(from, to)) == Some((from, to))
    ensures FilenameParse(FilenameMake(from, to) + tail) == Some((from, to))
  {
    var d1, d2 := DecimalString(from), DecimalString(to);
    DecimalValueOfString(from);
    DecimalValueOfString(to);
    DecimalValueIgnoresLeadingZero(d1);
    assert "0" + FilenameMake(from, to) == ("0" + d1) + "-" + d2 + Suffix + "";
    ParseAcceptsPath("", "0" + FilenameMake(from, to), "0" + d1, d2, "");
    assert FilenameMake(from, to) + tail == d1 + "-" + d2 + Suffix + tail;
    ParseAcceptsPath("", FilenameMake(from, to) + tail, d1, d2, tail);
  }
}
