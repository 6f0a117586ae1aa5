/** compareVersions of src/hooks/useVersionChecker.ts: release tags such as `v2025.08.190200`
    are compared as digit strings, after dropping a leading `v` and every dot and padding the
    shorter one with zeros on the right. */
module VersionChecker {

  /** The version compiled in when none is configured. */
  const DefaultVersion: string := "2025.08.180401"

  /** `version.replace(/^v/, '')`. */
  function StripV(version: string): (r: string)
    ensures |version| > 0 && version[0] == 'v' ==> r == version[1..]
    ensures (|version| == 0 || version[0] != 'v') ==> r == version
  {
    if |version| > 0 && version[0] == 'v' then version[1..] else version
  }

  /** `s.replace(/\./g, '')`. */
  function RemoveDots(s: string): (r: string)
    ensures '.' !in r
    ensures |r| <= |s|
  {
    if s == [] then []
    else if s[0] == '.' then RemoveDots(s[1..])
    else [s[0]] + RemoveDots(s[1..])
  }

  /** `n` zeros. */
  function Zeros(n: nat): (r: string)
    ensures |r| == n && forall i :: 0 <= i < n ==> r[i] == '0'
  {
    if n == 0 then "" else "0" + Zeros(n - 1)
  }

  /** `s.padEnd(n, '0')`. */
  function PadEnd(s: string, n: nat): (r: string)
    ensures |r| == if |s| < n then n else |s|
    ensures r[..|s|] == s
  {
    if |s| < n then s + Zeros(n - |s|) else s
  }

  /** JavaScript's `a < b` on strings: lexicographic, a proper prefix first. */
  function Less(a: string, b: string): bool
  {
    if a == [] then b != []
    else if b == [] then false
    else if a[0] != b[0] then a[0] < b[0]
    else Less(a[1..], b[1..])
  }

  /** The digit string a version is compared by. */
  function Digits(version: string): string
  {
    RemoveDots(StripV(version))
  }

  /** compareVersions: whether `latest` is newer than `current`, i.e. the padded digits of
      `current` come strictly before those of `latest`. */
  function HasUpdate(current: string, latest: string): (r: bool)
    ensures r ==> Digits(current) != Digits(latest)
  {
    var c := Digits(current);
    var l := Digits(latest);
    var n := if |c| < |l| then |l| else |c|;
    LessIrreflexive(PadEnd(c, n));
    Less(PadEnd(c, n), PadEnd(l, n))
  }

  lemma {:induction false} LessIrreflexive(a: string)
    ensures !Less(a, a)
  {
    if a != [] { LessIrreflexive(a[1..]); }
  }

  lemma {:induction false} LessAsymmetric(a: string, b: string)
    ensures Less(a, b) ==> !Less(b, a)
  {
    if a != [] && b != [] && a[0] == b[0] { LessAsymmetric(a[1..], b[1..]); }
  }

  /** Equal-length strings are ordered by their first difference, so a common suffix does not
      change the order. */
  lemma {:induction false} LessCommonSuffix(a: string, b: string, t: string)
    requires |a| == |b|
    ensures Less(a + t, b + t) == Less(a, b)
  {
    if a == [] {
      assert a + t == t && b + t == t;
      LessIrreflexive(t);
    } else {
      assert (a + t)[0] == a[0] && (b + t)[0] == b[0];
      assert (a + t)[1..] == a[1..] + t && (b + t)[1..] == b[1..] + t;
      LessCommonSuffix(a[1..], b[1..], t);
    }
  }

  lemma {:induction false} RemoveDotsConcat(a: string, b: string)
    ensures RemoveDots(a + b) == RemoveDots(a) + RemoveDots(b)
  {
    if a == [] {
      assert a + b == b;
    } else {
      var ab := a + b;
      assert ab[0] == a[0] && ab[1..] == a[1..] + b;
      RemoveDotsConcat(a[1..], b);
      if a[0] != '.' {
        assert [a[0]] + (RemoveDots(a[1..]) + RemoveDots(b)) == ([a[0]] + RemoveDots(a[1..])) + RemoveDots(b);
      }
    }
  }

  lemma {:induction false} ZerosConcat(m: nat, k: nat)
    ensures Zeros(m) + Zeros(k) == Zeros(m + k)
  {
    if m > 0 {
      ZerosConcat(m - 1, k);
      assert Zeros(m) + Zeros(k) == "0" + (Zeros(m - 1) + Zeros(k));
    }
  }

  /** Padding further only appends zeros. */
  lemma {:induction false} PadFurther(s: string, n: nat, m: nat)
    requires |s| <= n <= m
    ensures PadEnd(s, m) == PadEnd(s, n) + Zeros(m - n)
  {
    ZerosConcat(n - |s|, m - n);
    if |s| == n {
      assert PadEnd(s, n) == s;
    }
  }

  /** The comparison does not depend on how far both digit strings are padded. */
  lemma {:induction false} PaddingIrrelevant(c: string, l: string, n: nat, m: nat)
    requires |c| <= n && |l| <= n && n <= m
    ensures Less(PadEnd(c, m), PadEnd(l, m)) == Less(PadEnd(c, n), PadEnd(l, n))
  {
    PadFurther(c, n, m);
    PadFurther(l, n, m);
    LessCommonSuffix(PadEnd(c, n), PadEnd(l, n), Zeros(m - n));
  }

  /** A version is never newer than itself, and of two versions at most one is newer. */
  lemma {:induction false} HasUpdateIrreflexive(current: string, latest: string)
    ensures Digits(current) == Digits(latest) ==> !HasUpdate(current, latest)
    ensures HasUpdate(current, latest) ==> !HasUpdate(latest, current)
  {
    var c := Digits(current);
    var l := Digits(latest);
    var n := if |c| < |l| then |l| else |c|;
    LessIrreflexive(PadEnd(c, n));
    LessAsymmetric(PadEnd(c, n), PadEnd(l, n));
  }

  /** One leading `v` is ignored, and only one: a second `v` stays part of the digits. */
  lemma {:induction false} LeadingVIgnored(current: string, latest: string)
    requires current == [] || current[0] != 'v'
    ensures HasUpdate("v" + current, latest) == HasUpdate(current, latest)
    ensures Digits("vv" + current) == "v" + Digits(current)
  {
    StripOneV(current);
    SecondVKept(current);
  }

  lemma {:induction false} StripOneV(current: string)
    requires current == [] || current[0] != 'v'
    ensures Digits("v" + current) == Digits(current)
  {
    assert ("v" + current)[1..] == current;
  }

  lemma {:induction false} SecondVKept(current: string)
    requires current == [] || current[0] != 'v'
    ensures Digits("vv" + current) == "v" + Digits(current)
  {
    var s := "v" + current;
    assert ("vv" + current)[1..] == s;
    assert s[0] == 'v' && s[1..] == current;
    assert RemoveDots(s) == "v" + RemoveDots(current);
  }

  lemma {:induction false} StripVConcat(a: string, b: string)
    requires a != []
    ensures StripV(a + b) == StripV(a) + b
  {
    assert (a + b)[0] == a[0];
    if a[0] == 'v' { assert (a + b)[1..] == a[1..] + b; }
  }

  /** Dots after the first character are ignored. */
  lemma {:induction false} DotsIgnored(a: string, b: string, latest: string)
    requires a != []
    ensures Digits(a + "." + b) == Digits(a + b)
    ensures HasUpdate(a + "." + b, latest) == HasUpdate(a + b, latest)
  {
    DigitsDropDot(a, b);
  }

  lemma {:induction false} DigitsDropDot(a: string, b: string)
    requires a != []
    ensures Digits(a + "." + b) == Digits(a + b)
  {
    var db := "." + b;
    assert a + "." + b == a + db;
    StripVConcat(a, db);
    StripVConcat(a, b);
    RemoveDotsConcat(StripV(a), db);
    RemoveDotsConcat(StripV(a), b);
    assert db[0] == '.' && db[1..] == b;
  }

  lemma {:induction false} DigitsAppendZero(version: string)
    ensures Digits(version + "0") == Digits(version) + "0"
  {
    if version == [] {
      assert version + "0" == "0";
    } else {
      StripVConcat(version, "0");
    }
    RemoveDotsConcat(StripV(version), "0");
  }

  /** A trailing zero on either side never changes the answer: the shorter string is padded
      with zeros anyway. */
  lemma {:induction false} TrailingZeroIgnored(current: string, latest: string)
    ensures HasUpdate(current + "0", latest) == HasUpdate(current, latest)
    ensures HasUpdate(current, latest + "0") == HasUpdate(current, latest)
  {
    DigitsAppendZero(current);
    DigitsAppendZero(latest);
    PaddedZeroIgnored(Digits(current), Digits(latest));
  }

  /** The padded comparison of `c` and `l` does not change when either gets a trailing zero. */
  lemma {:induction false} PaddedZeroIgnored(c: string, l: string)
    ensures var n := if |c| < |l| then |l| else |c|;
            var n1 := if |c| + 1 < |l| then |l| else |c| + 1;
            var n2 := if |c| < |l| + 1 then |l| + 1 else |c|;
            Less(PadEnd(c + "0", n1), PadEnd(l, n1)) == Less(PadEnd(c, n), PadEnd(l, n)) &&
            Less(PadEnd(c, n2), PadEnd(l + "0", n2)) == Less(PadEnd(c, n), PadEnd(l, n))
  {
    var n := if |c| < |l| then |l| else |c|;
    var n1 := if |c| + 1 < |l| then |l| else |c| + 1;
    var n2 := if |c| < |l| + 1 then |l| + 1 else |c|;
    PaddingIrrelevant(c, l, n, n1);
    PaddingIrrelevant(c, l, n, n2);
    PadZero(c, n1);
    PadZero(l, n2);
  }

  /** Padding `s + "0"` is padding `s`. */
  lemma {:induction false} PadZero(s: string, n: nat)
    requires |s| < n
    ensures PadEnd(s + "0", n) == PadEnd(s, n)
  {
    ZerosConcat(1, n - |s| - 1);
    assert Zeros(1) == "0";
  }

  lemma {:induction false} NoDotsKept(s: string)
    requires '.' !in s
    ensures RemoveDots(s) == s
  {
    if s != [] {
      NoDotsKept(s[1..]);
      assert s == [s[0]] + s[1..];
    }
  }

  lemma {:induction false} LessCommonPrefix(p: string, a: string, b: string)
    ensures Less(p + a, p + b) == Less(a, b)
  {
    if p != [] {
      assert (p + a)[0] == p[0] && (p + b)[0] == p[0];
      assert (p + a)[1..] == p[1..] + a && (p + b)[1..] == p[1..] + b;
      LessCommonPrefix(p[1..], a, b);
    } else {
      assert p + a == a && p + b == b;
    }
  }

  /** The digits of a dotted date version: the three parts run together. */
  lemma {:induction false} DottedDigits(y: string, m: string, d: string)
    requires '.' !in y && '.' !in m && '.' !in d && y != [] && y[0] != 'v'
    ensures Digits(y + "." + m + "." + d) == y + m + d
  {
    assert y + "." + m + "." + d == y + "." + (m + "." + d);
    DigitsDropDot(y, m + "." + d);
    assert y + (m + "." + d) == (y + m) + "." + d;
    DigitsDropDot(y + m, d);
    assert (y + m + d)[0] == y[0];
    NoDotsKept(y + m + d);
  }

  /** Two versions of the same year and month whose day parts have the same length are
      ordered by the day parts; a `v` on the latest one makes no difference. */
  lemma {:induction false} SameMonthOrder(y: string, m: string, d: string, d2: string)
    requires '.' !in y && '.' !in m && '.' !in d && '.' !in d2 && y != [] && y[0] != 'v'
    requires |d| == |d2|
    ensures HasUpdate(y + "." + m + "." + d, "v" + (y + "." + m + "." + d2)) == Less(d, d2)
  {
    var latest := y + "." + m + "." + d2;
    assert latest[0] == y[0];
    LeadingVIgnored(latest, y + "." + m + "." + d);
    DottedDigits(y, m, d);
    DottedDigits(y, m, d2);
    var c := y + m + d;
    var l := y + m + d2;
    assert PadEnd(c, |c|) == c && PadEnd(l, |l|) == l;
    assert c == (y + m) + d && l == (y + m) + d2;
    LessCommonPrefix(y + m, d, d2);
  }

  /** A pin on the source's constant DefaultVersion, beside the general lemmas above: the
      release tag of August 19 is newer than the default version, and the default version
      with a `v` is not newer than itself. */
  lemma {:induction false} ReleaseExamples(current: string, tag: string)
    requires current == DefaultVersion && tag == "v2025.08.190200"
    ensures HasUpdate(current, tag)
    ensures !HasUpdate(current, "v" + current)
  {
    var y, m, d, d2 := SplitExample(current, tag);
    SameMonthOrder(y, m, d, d2);
    SameMonthOrder(y, m, d, d);
    LessIrreflexive(d);
  }

  /** The parts of the two example versions. */
  lemma {:induction false} SplitExample(current: string, tag: string) returns (y: string, m: string, d: string, d2: string)
    requires current == DefaultVersion && tag == "v2025.08.190200"
    ensures '.' !in y && '.' !in m && '.' !in d && '.' !in d2 && y != [] && y[0] != 'v' && |d| == |d2|
    ensures current == y + "." + m + "." + d && tag == "v" + (y + "." + m + "." + d2)
    ensures Less(d, d2)
  {
    y, m, d, d2 := "2025", "08", "180401", "190200";
    assert Less("180401", "190200");
  }
}
