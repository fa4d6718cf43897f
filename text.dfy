/** Text helpers shared by the model: the handful of Python string operations the
    core relies on (str(int), int(str), str.split with a separator, sep.join),
    stated on Dafny strings, with the round trips the core depends on. */
module Text {

  datatype Option<+T> = None | Some(value: T)

  /** Python exceptions become the Err case; Ok carries the value returned. */
  datatype Result<+T, +E> = Ok(value: T) | Err(error: E)

  function Max(a: int, b: int): int { if a < b then b else a }
  function Min(a: int, b: int): int { if a < b then a else b }

  // ---------------------------------------------------------------------------
  // Integers as decimal text

  predicate IsDigit(c: char) { '0' <= c <= '9' }

  predicate AllDigits(s: string) { forall i :: 0 <= i < |s| ==> IsDigit(s[i]) }

  function DigitChar(d: nat): char
    requires d < 10
  {
    ('0' as int + d) as char
  }

  function DigitValue(c: char): nat
    requires IsDigit(c)
  {
    c as int - '0' as int
  }

  /** str(n) for a non-negative n: the shortest decimal text, no sign, no leading zero. */
  function NatToString(n: nat): (s: string)
    ensures |s| > 0 && AllDigits(s)
    decreases n
  {
    if n < 10 then [DigitChar(n)] else NatToString(n / 10) + [DigitChar(n % 10)]
  }

  /** str(n): a leading '-' for a negative n, then the digits of its magnitude. */
  function IntToString(n: int): (s: string)
    ensures |s| > 0
    ensures forall i :: 0 <= i < |s| ==> IsDigit(s[i]) || s[i] == '-'
    ensures n >= 0 ==> AllDigits(s)
  {
    if n < 0 then "-" + NatToString(-n) else NatToString(n)
  }

  /** The value of a run of decimal digits, read most significant first. */
  function DigitsValue(s: string): nat
    requires AllDigits(s)
    decreases |s|
  {
    if s == [] then 0 else 10 * DigitsValue(s[..|s| - 1]) + DigitValue(s[|s| - 1])
  }

  /** int(s) on text without surrounding white space: an optional sign, then one or
      more decimal digits; anything else is the ValueError case, None. */
  function ParseInt(s: string): (r: Option<int>)
    ensures r.Some? ==> |s| > 0
    ensures r.Some? && '-' !in s ==> r.value >= 0
  {
    if |s| > 0 && (s[0] == '-' || s[0] == '+') then
      var body := s[1..];
      if |body| > 0 && AllDigits(body) then
        var v: int := if s[0] == '-' then -(DigitsValue(body) as int) else DigitsValue(body);
        Some(v)
      else None
    else if |s| > 0 && AllDigits(s) then Some(DigitsValue(s))
    else None
  }

  lemma {:induction false} DigitsValueOfNatToString(n: nat)
    ensures DigitsValue(NatToString(n)) == n
    decreases n
  {
    if n >= 10 {
      var s := NatToString(n);
      assert s[..|s| - 1] == NatToString(n / 10);
      DigitsValueOfNatToString(n / 10);
    }
  }

  /** int(str(n)) == n for every integer n. */
  lemma ParseIntToString(n: int)
    ensures ParseInt(IntToString(n)) == Some(n)
  {
    if n < 0 {
      ParseNegativeToString(n);
    } else {
      ParseNatToString(n);
    }
  }

  lemma ParseNatToString(n: nat)
    ensures ParseInt(NatToString(n)) == Some(n)
  {
    var s := NatToString(n);
    assert IsDigit(s[0]);
    DigitsValueOfNatToString(n);
  }

  lemma ParseNegativeToString(n: int)
    requires n < 0
    ensures ParseInt(IntToString(n)) == Some(n)
  {
    var body := NatToString(-n);
    ParseNegated(body);
    DigitsValueOfNatToString(-n);
  }

  /** int("-" + digits) is minus the value of the digits. */
  lemma ParseNegated(body: string)
    requires |body| > 0 && AllDigits(body)
    ensures ParseInt("-" + body) == Some(-(DigitsValue(body) as int))
  {
    assert ("-" + body)[1..] == body;
  }

  // ---------------------------------------------------------------------------
  // str.split(sep) and sep.join(parts)

  /** sep occurs in s starting at index j. */
  predicate OccursAt(s: string, sep: string, j: nat)
  {
    j + |sep| <= |s| && s[j..j + |sep|] == sep
  }

  /** The first index at or after `from` where sep occurs in s, or -1 (str.find). */
  function IndexOf(s: string, sep: string, from: nat): (r: int)
    requires |sep| > 0 && from <= |s|
    ensures r == -1 || from <= r <= |s| - |sep|
    decreases |s| - from
  {
    if from + |sep| > |s| then -1
    else if OccursAt(s, sep, from) then from
    else IndexOf(s, sep, from + 1)
  }

  /** IndexOf finds an occurrence, and no occurrence lies between `from` and it. */
  lemma {:induction false} IndexOfFirst(s: string, sep: string, from: nat)
    requires |sep| > 0 && from <= |s|
    ensures var r := IndexOf(s, sep, from);
      (r == -1 || OccursAt(s, sep, r)) &&
      forall j :: from <= j && (r == -1 || j < r) ==> !OccursAt(s, sep, j)
    decreases |s| - from
  {
    if from + |sep| <= |s| && !OccursAt(s, sep, from) {
      IndexOfFirst(s, sep, from + 1);
    }
  }

  /** s.split(sep) for a non-empty sep: the pieces between non-overlapping occurrences
      of sep, scanned left to right; always at least one piece. */
  function Split(s: string, sep: string): (parts: seq<string>)
    requires |sep| > 0
    ensures |parts| >= 1
    decreases |s|
  {
    var i := IndexOf(s, sep, 0);
    if i < 0 then [s] else [s[..i]] + Split(s[i + |sep|..], sep)
  }

  /** sep.join(parts). */
  function Join(parts: seq<string>, sep: string): string
    decreases |parts|
  {
    if |parts| == 0 then ""
    else if |parts| == 1 then parts[0]
    else parts[0] + sep + Join(parts[1..], sep)
  }

  /** Every character of every piece of a split comes from the text that was split. */
  lemma {:induction false} SplitChars(s: string, sep: string)
    requires |sep| > 0
    ensures forall p, c :: p in Split(s, sep) && c in p ==> c in s
    decreases |s|
  {
    var i := IndexOf(s, sep, 0);
    if i >= 0 {
      var rest := s[i + |sep|..];
      IndexOfFirst(s, sep, 0);
      SplitChars(rest, sep);
      forall p, c | p in Split(s, sep) && c in p ensures c in s {
        if p != s[..i] {
          assert p in Split(rest, sep);
        }
      }
    }
  }

  /** A one-character separator that does not occur in a is first found right after a. */
  lemma FirstSepAfter(a: string, sep: string, b: string)
    requires |sep| == 1 && sep[0] !in a
    ensures IndexOf(a + sep + b, sep, 0) == |a|
  {
    var s := a + sep + b;
    IndexOfFirst(s, sep, 0);
    assert OccursAt(s, sep, |a|);
    forall j | 0 <= j < |a| ensures !OccursAt(s, sep, j) {
      assert s[j] == a[j];
    }
  }

  /** A one-character separator absent from s is not found. */
  lemma {:induction false} IndexOfAbsent(s: string, sep: string, from: nat)
    requires |sep| == 1 && from <= |s| && sep[0] !in s
    ensures IndexOf(s, sep, from) == -1
    decreases |s| - from
  {
    if from + 1 <= |s| {
      assert s[from..from + 1] == [s[from]];
      IndexOfAbsent(s, sep, from + 1);
    }
  }

  /** A text without the one-character separator splits into itself alone. */
  lemma SplitWithoutSep(a: string, sep: string)
    requires |sep| == 1 && sep[0] !in a
    ensures Split(a, sep) == [a]
  {
    IndexOfAbsent(a, sep, 0);
  }

  /** Splitting a + sep + b, where a is free of the one-character sep, peels a off. */
  lemma SplitCons(a: string, sep: string, b: string)
    requires |sep| == 1 && sep[0] !in a
    ensures Split(a + sep + b, sep) == [a] + Split(b, sep)
  {
    var s := a + sep + b;
    FirstSepAfter(a, sep, b);
    assert s[..|a|] == a;
    assert s[|a| + |sep|..] == b;
  }

  /** s.split(sep) undoes sep.join(parts) when no part contains the one-character sep. */
  lemma {:induction false} SplitJoin(parts: seq<string>, sep: string)
    requires |sep| == 1 && |parts| >= 1
    requires forall p :: p in parts ==> sep[0] !in p
    ensures Split(Join(parts, sep), sep) == parts
    decreases |parts|
  {
    if |parts| == 1 {
      SplitWithoutSep(parts[0], sep);
    } else {
      SplitJoin(parts[1..], sep);
      SplitCons(parts[0], sep, Join(parts[1..], sep));
    }
  }

  lemma JoinTwo(a: string, b: string, sep: string)
    ensures Join([a, b], sep) == a + sep + b
  {
    assert [a, b][1..] == [b];
  }

  /** A join of parts whose first part is non-empty is non-empty. */
  lemma JoinNonEmpty(parts: seq<string>, sep: string)
    requires |parts| >= 1 && |parts[0]| > 0
    ensures |Join(parts, sep)| > 0
  {
  }

  /** Every character of a join comes from a part or from the separator. */
  lemma {:induction false} JoinChars(parts: seq<string>, sep: string)
    ensures forall c :: c in Join(parts, sep) ==> c in sep || exists p :: p in parts && c in p
    decreases |parts|
  {
    if |parts| > 1 {
      JoinChars(parts[1..], sep);
      forall c | c in Join(parts, sep)
        ensures c in sep || exists p :: p in parts && c in p
      {
        if c in Join(parts[1..], sep) && c !in sep {
          var p :| p in parts[1..] && c in p;
          assert p in parts;
        }
      }
    }
  }
}
