/** The Python string operations that the AMP ranking parser relies on:
    `str.split()`, `str.split(sep)` and `int(...)`. */
module Text {
  import opened Common

  /** Python's `str.isspace` for one character. */
  predicate IsSpace(c: char)
  {
    c == ' ' || ('\t' <= c <= '\r') || ('\U{1C}' <= c <= '\U{1F}') ||
    c == '\U{85}' || c == '\U{A0}' || c == '\U{1680}' || ('\U{2000}' <= c <= '\U{200A}') ||
    c == '\U{2028}' || c == '\U{2029}' || c == '\U{202F}' || c == '\U{205F}' || c == '\U{3000}'
  }

  predicate NoSpace(s: string)
  {
    forall i :: 0 <= i < |s| ==> !IsSpace(s[i])
  }

  /** `not line.strip()`: the line holds whitespace only. */
  predicate IsBlank(s: string)
    ensures IsBlank(s) <==> forall c :: c in s ==> IsSpace(c)
  {
    forall i :: 0 <= i < |s| ==> IsSpace(s[i])
  }

  /** Length of the leading run of non-whitespace characters. */
  function WordLength(s: string): (n: nat)
    ensures n <= |s| && NoSpace(s[..n])
    ensures n < |s| ==> IsSpace(s[n])
  {
    if s == [] || IsSpace(s[0]) then 0 else 1 + WordLength(s[1..])
  }

  /** `s.split()` (equally `s.strip().split()`): the maximal runs of
      non-whitespace characters, in order. */
  function Words(s: string): (r: seq<string>)
    ensures forall i :: 0 <= i < |r| ==> |r[i]| > 0 && NoSpace(r[i])
    decreases |s|
  {
    if s == [] then []
    else if IsSpace(s[0]) then Words(s[1..])
    else
      var n := WordLength(s);
      [s[..n]] + Words(s[n..])
  }

  /** A line splits into no fields exactly when it is blank. */
  lemma {:induction false} WordsEmptyIffBlank(s: string)
    ensures Words(s) == [] <==> IsBlank(s)
    decreases |s|
  {
    if s != [] && IsSpace(s[0]) {
      WordsEmptyIffBlank(s[1..]);
      assert IsBlank(s) <==> IsBlank(s[1..]) by {
        assert forall i :: 0 < i < |s| ==> s[i] == s[1..][i - 1];
      }
    }
  }

  lemma {:induction false} WordLengthOfWord(w: string, rest: string)
    requires NoSpace(w)
    requires rest == [] || IsSpace(rest[0])
    ensures WordLength(w + rest) == |w|
  {
    if w == [] {
      assert w + rest == rest;
    } else {
      assert (w + rest)[1..] == w[1..] + rest;
      WordLengthOfWord(w[1..], rest);
    }
  }

  /** A whitespace-free word followed by a separator splits off as the first field. */
  lemma WordsCons(w: string, c: char, rest: string)
    requires |w| > 0 && NoSpace(w) && IsSpace(c)
    ensures Words(w + [c] + rest) == [w] + Words(rest)
  {
    var s := w + [c] + rest;
    WordLengthOfWord(w, [c] + rest);
    assert s == w + ([c] + rest);
    assert s[..|w|] == w;
    assert s[|w|..] == [c] + rest;
    assert ([c] + rest)[1..] == rest;
  }

  /** `"\t".join([f1, f2, f3]) + "\n"`, a record line of three fields. */
  function Record3(f1: string, f2: string, f3: string): string
  {
    f1 + "\t" + f2 + "\t" + f3 + "\n"
  }

  /** A tab-separated record line of three whitespace-free fields splits back into them. */
  lemma WordsOfRecord3(f1: string, f2: string, f3: string)
    requires |f1| > 0 && NoSpace(f1) && |f2| > 0 && NoSpace(f2) && |f3| > 0 && NoSpace(f3)
    ensures Words(Record3(f1, f2, f3)) == [f1, f2, f3]
  {
    assert Record3(f1, f2, f3) == f1 + ['\t'] + (f2 + ['\t'] + (f3 + ['\n'] + []));
    WordsCons(f1, '\t', f2 + ['\t'] + (f3 + ['\n'] + []));
    WordsCons(f2, '\t', f3 + ['\n'] + []);
    WordsCons(f3, '\n', []);
  }

  /** `s.split(sep)`: the pieces between occurrences of `sep`, empty ones included. */
  function SplitOn(s: string, sep: char): (r: seq<string>)
    ensures |r| >= 1
    ensures forall i :: 0 <= i < |r| ==> sep !in r[i]
  {
    if s == [] then [""]
    else
      var rest := SplitOn(s[1..], sep);
      if s[0] == sep then [""] + rest
      else [[s[0]] + rest[0]] + rest[1..]
  }

  /** `sep.join(fields)`. */
  function JoinWith(fields: seq<string>, sep: char): string
    requires |fields| >= 1
  {
    if |fields| == 1 then fields[0] else fields[0] + [sep] + JoinWith(fields[1..], sep)
  }

  /** Splitting and joining on the same separator undo each other. */
  lemma {:induction false} JoinSplit(s: string, sep: char)
    ensures JoinWith(SplitOn(s, sep), sep) == s
  {
    if s != [] {
      JoinSplit(s[1..], sep);
      var rest := SplitOn(s[1..], sep);
      if s[0] == sep {
        assert ([""] + rest)[1..] == rest;
      } else {
        var r := [[s[0]] + rest[0]] + rest[1..];
        assert r[1..] == rest[1..];
        if |rest| > 1 {
          assert rest == [rest[0]] + rest[1..];
        }
      }
    }
  }

  /** Joining whitespace-free fields with a non-whitespace separator gives a whitespace-free string. */
  lemma {:induction false} JoinWithNoSpace(fields: seq<string>, sep: char)
    requires |fields| >= 1 && !IsSpace(sep)
    requires forall i :: 0 <= i < |fields| ==> NoSpace(fields[i])
    ensures NoSpace(JoinWith(fields, sep))
    ensures |fields[0]| > 0 ==> |JoinWith(fields, sep)| > 0
  {
    if |fields| > 1 {
      JoinWithNoSpace(fields[1..], sep);
      var s := JoinWith(fields, sep);
      var f, tail := fields[0], JoinWith(fields[1..], sep);
      assert s == f + [sep] + tail;
      forall i | 0 <= i < |s| ensures !IsSpace(s[i]) {
        if i < |f| {
          assert s[i] == f[i];
        } else if i > |f| {
          assert s[i] == tail[i - |f| - 1];
        }
      }
    }
  }

  /** Fields free of the separator are recovered by splitting their join. */
  lemma {:induction false} SplitJoin(fields: seq<string>, sep: char)
    requires |fields| >= 1
    requires forall i :: 0 <= i < |fields| ==> sep !in fields[i]
    ensures SplitOn(JoinWith(fields, sep), sep) == fields
    decreases |fields|, |fields[0]|
  {
    var f := fields[0];
    if |fields| == 1 {
      SplitNoSep(f, sep);
    } else if f == [] {
      var tail := JoinWith(fields[1..], sep);
      assert JoinWith(fields, sep) == [sep] + tail;
      assert ([sep] + tail)[1..] == tail;
      SplitJoin(fields[1..], sep);
      assert fields == [""] + fields[1..];
    } else {
      var shorter := [f[1..]] + fields[1..];
      assert shorter[1..] == fields[1..];
      assert forall i :: 0 <= i < |shorter| ==> sep !in shorter[i] by {
        assert forall x :: x in f[1..] ==> x in f;
      }
      SplitJoin(shorter, sep);
      var s := JoinWith(fields, sep);
      assert s == [f[0]] + JoinWith(shorter, sep);
      assert s[1..] == JoinWith(shorter, sep);
      assert f == [f[0]] + f[1..];
    }
  }

  /** A piece without the separator splits into itself alone. */
  lemma {:induction false} SplitNoSep(f: string, sep: char)
    requires sep !in f
    ensures SplitOn(f, sep) == [f]
  {
    if f != [] {
      assert forall x :: x in f[1..] ==> x in f;
      SplitNoSep(f[1..], sep);
      assert f == [f[0]] + f[1..];
    }
  }

  predicate IsDigit(c: char)
  {
    '0' <= c <= '9'
  }

  predicate AllDigits(s: string)
  {
    forall i :: 0 <= i < |s| ==> IsDigit(s[i])
  }

  /** The value of a run of decimal digits, most significant first. */
  function DigitsValue(s: string): nat
    requires AllDigits(s)
  {
    if s == [] then 0 else 10 * DigitsValue(s[..|s| - 1]) + ((s[|s| - 1] as int) - ('0' as int))
  }

  /** Python's default cap on the number of decimal digits `int(s)` accepts
      (`sys.int_info.default_max_str_digits`); longer inputs raise `ValueError`. */
  const MaxStrDigits: nat := 4300

  /** `int(s)` for a string without whitespace or underscores: an optional sign
      and between 1 and `MaxStrDigits` decimal digits; anything else is a
      `ValueError` (`None`). */
  function ParseInt(s: string): (r: Option<int>)
    ensures r.Some? ==> 0 < |s| <= MaxStrDigits + 1
    ensures r.Some? && |s| == MaxStrDigits + 1 ==> s[0] == '+' || s[0] == '-'
  {
    if |s| > 0 && (s[0] == '+' || s[0] == '-') then
      var digits := s[1..];
      if 0 < |digits| <= MaxStrDigits && AllDigits(digits) then
        var magnitude: int := DigitsValue(digits);
        Some(if s[0] == '-' then -magnitude else magnitude)
      else None
    else if 0 < |s| <= MaxStrDigits && AllDigits(s) then
      Some(DigitsValue(s))
    else None
  }

  /** `abs(n)`. */
  function Magnitude(n: int): nat
  {
    if n < 0 then -n else n
  }

  /** `str(n)` for a non-negative integer. */
  function ShowNat(n: nat): (r: string)
    ensures |r| > 0 && AllDigits(r)
  {
    if n < 10 then [('0' as int + n) as char]
    else ShowNat(n / 10) + [('0' as int + n % 10) as char]
  }

  /** `str(n)`. */
  function ShowInt(n: int): (r: string)
  {
    if n < 0 then "-" + ShowNat(-n) else ShowNat(n)
  }

  lemma {:induction false} DigitsOfShowNat(n: nat)
    ensures DigitsValue(ShowNat(n)) == n
  {
    if n >= 10 {
      DigitsOfShowNat(n / 10);
      var s := ShowNat(n);
      assert s[..|s| - 1] == ShowNat(n / 10);
    }
  }

  /** `int(str(n)) == n` for every integer of at most `MaxStrDigits` digits;
      longer ones are refused. */
  lemma ParseShowInt(n: int)
    ensures |ShowNat(Magnitude(n))| <= MaxStrDigits ==> ParseInt(ShowInt(n)) == Some(n)
    ensures |ShowNat(Magnitude(n))| > MaxStrDigits ==> ParseInt(ShowInt(n)) == None
  {
    if n < 0 {
      DigitsOfShowNat(-n);
      assert ShowInt(n)[1..] == ShowNat(-n);
    } else {
      DigitsOfShowNat(n);
    }
  }

  /** A printed integer contains no whitespace and no underscore. */
  lemma ShowIntPlain(n: int)
    ensures |ShowInt(n)| > 0 && NoSpace(ShowInt(n)) && '_' !in ShowInt(n)
  {
    var s := ShowInt(n);
    assert forall i :: 0 <= i < |s| ==> s[i] == '-' || IsDigit(s[i]);
  }
}
