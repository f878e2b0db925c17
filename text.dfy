/** The few pieces of Python string behaviour the ingest code relies on: str.replace,
    str.split on one character, slicing and float() on a plain decimal numeral. */
module Text {
  import opened Common

  /** pat occurs in s at position i. */
  predicate OccursAt(s: string, pat: string, i: int)
  {
    0 <= i && i + |pat| <= |s| && s[i..i + |pat|] == pat
  }

  predicate Contains(s: string, pat: string)
  {
    exists i | 0 <= i <= |s| :: OccursAt(s, pat, i)
  }

  /** str.replace(pat, rep): occurrences are found left to right and do not overlap. */
  function ReplaceAll(s: string, pat: string, rep: string): string
    requires |pat| > 0
    decreases |s|
  {
    if |s| == 0 then ""
    else if |pat| <= |s| && s[..|pat|] == pat then rep + ReplaceAll(s[|pat|..], pat, rep)
    else [s[0]] + ReplaceAll(s[1..], pat, rep)
  }

  lemma NoOccurrenceInTail(s: string, pat: string)
    requires |s| > 0 && !Contains(s, pat)
    ensures !Contains(s[1..], pat) && !OccursAt(s, pat, 0)
  {
    forall i | OccursAt(s[1..], pat, i) ensures false {
      assert s[1..][i..i + |pat|] == s[i + 1..i + 1 + |pat|];
      assert OccursAt(s, pat, i + 1);
    }
  }

  /** A text in which pat never occurs is left as it is. */
  lemma {:induction false} ReplaceAllAbsent(s: string, pat: string, rep: string)
    requires |pat| > 0 && !Contains(s, pat)
    ensures ReplaceAll(s, pat, rep) == s
    decreases |s|
  {
    if |s| > 0 {
      NoOccurrenceInTail(s, pat);
      assert !(|pat| <= |s| && s[..|pat|] == pat);
      ReplaceAllAbsent(s[1..], pat, rep);
      assert s == [s[0]] + s[1..];
    }
  }

  /** A pattern holding a character the text lacks does not occur in it. */
  lemma AbsentCharNotContained(s: string, pat: string, k: nat)
    requires k < |pat| && pat[k] !in s
    ensures !Contains(s, pat)
  {
    forall i | 0 <= i <= |s| ensures !OccursAt(s, pat, i) {
      if i + |pat| <= |s| {
        assert s[i..i + |pat|][k] == s[i + k];
      }
    }
  }

  /** Replacing a one-character pattern by a text without that character removes it. */
  lemma {:induction false} ReplaceAllRemovesChar(s: string, c: char, rep: string)
    requires c !in rep
    ensures c !in ReplaceAll(s, [c], rep)
    decreases |s|
  {
    if |s| > 0 {
      ReplaceAllRemovesChar(s[1..], c, rep);
    }
  }

  /** No proper prefix of pat is also a suffix of it, so an occurrence cannot straddle
      a boundary and overlap a later occurrence. */
  predicate BorderFree(pat: string)
  {
    forall k | 0 < k < |pat| :: pat[..k] != pat[|pat| - k..]
  }

  /** Appending one border-free pattern to a text free of it and removing every
      occurrence gives the text back. */
  lemma {:induction false} StripAppended(b: string, pat: string)
    requires |pat| > 0 && BorderFree(pat) && !Contains(b, pat)
    ensures ReplaceAll(b + pat, pat, "") == b
    decreases |b|
  {
    var s := b + pat;
    if |b| == 0 {
      assert s == pat;
      assert s[|pat|..] == "";
    } else {
      NoOccurrenceInTail(b, pat);
      assert s[..|pat|] != pat by {
        if |b| >= |pat| {
          assert s[..|pat|] == b[0..0 + |pat|];
        } else {
          var k := |pat| - |b|;
          assert pat[..k] != pat[|pat| - k..];
          assert s[..|pat|][|b|..] == pat[..k];
        }
      }
      assert s[1..] == b[1..] + pat;
      StripAppended(b[1..], pat);
      assert b == [b[0]] + b[1..];
    }
  }

  /** str.split(sep) with a one-character separator: the pieces between separators,
      at least one. */
  function Split(s: string, sep: char): (pieces: seq<string>)
    ensures |pieces| > 0
    decreases |s|
  {
    if |s| == 0 then [""]
    else
      var rest := Split(s[1..], sep);
      if s[0] == sep then [""] + rest else [[s[0]] + rest[0]] + rest[1..]
  }

  /** sep.join(pieces). */
  function JoinWith(pieces: seq<string>, sep: char): string
    requires |pieces| > 0
  {
    if |pieces| == 1 then pieces[0] else pieces[0] + [sep] + JoinWith(pieces[1..], sep)
  }

  /** Joining the pieces with the separator gives the text back, no piece holds the
      separator, and there is more than one piece iff the separator occurs. */
  lemma {:induction false} SplitProperties(s: string, sep: char)
    ensures JoinWith(Split(s, sep), sep) == s
    ensures forall i | 0 <= i < |Split(s, sep)| :: sep !in Split(s, sep)[i]
    ensures |Split(s, sep)| > 1 <==> sep in s
    decreases |s|
  {
    if |s| > 0 {
      var rest := Split(s[1..], sep);
      SplitProperties(s[1..], sep);
      assert s == [s[0]] + s[1..];
      if s[0] != sep {
        var pieces := Split(s, sep);
        assert pieces[0] == [s[0]] + rest[0];
        if |rest| > 1 {
          assert pieces[1..] == rest[1..];
        }
        forall i | 0 <= i < |pieces| ensures sep !in pieces[i] {
          if i > 0 {
            assert pieces[i] == rest[i];
          }
        }
      } else {
        assert Split(s, sep)[1..] == rest;
      }
    }
  }

  /** Splitting a join of separator-free pieces gives the pieces back. */
  lemma {:induction false} JoinSplit(pieces: seq<string>, sep: char)
    requires |pieces| > 0
    requires forall i | 0 <= i < |pieces| :: sep !in pieces[i]
    ensures Split(JoinWith(pieces, sep), sep) == pieces
    decreases |pieces|
  {
    if |pieces| == 1 {
      SplitNoSep(pieces[0], sep);
    } else {
      var tail := pieces[1..];
      JoinSplit(tail, sep);
      SplitPrefix(pieces[0], sep, JoinWith(tail, sep));
      assert pieces == [pieces[0]] + tail;
    }
  }

  lemma {:induction false} SplitNoSep(p: string, sep: char)
    requires sep !in p
    ensures Split(p, sep) == [p]
    decreases |p|
  {
    if |p| > 0 {
      SplitNoSep(p[1..], sep);
      assert p == [p[0]] + p[1..];
    }
  }

  /** Splitting p + sep + rest, with p free of sep, gives p followed by the pieces of rest. */
  lemma {:induction false} SplitPrefix(p: string, sep: char, rest: string)
    requires sep !in p
    ensures Split(p + [sep] + rest, sep) == [p] + Split(rest, sep)
    decreases |p|
  {
    var s := p + [sep] + rest;
    if |p| == 0 {
      assert s[1..] == rest;
    } else {
      assert s[1..] == p[1..] + [sep] + rest;
      SplitPrefix(p[1..], sep, rest);
      assert p == [p[0]] + p[1..];
    }
  }

  /** s[i:j] for non-negative i and j: both ends are clamped to the length. */
  function Slice(s: string, i: nat, j: nat): (r: string)
    ensures |r| == (if j <= i || i >= |s| then 0 else (if j < |s| then j else |s|) - i)
    ensures forall k | 0 <= k < |r| :: r[k] == s[i + k]
  {
    var hi := if j < |s| then j else |s|;
    if i >= hi then "" else s[i..hi]
  }

  /** s[i:], clamped. */
  function Drop(s: string, i: nat): (r: string)
    ensures |s| <= i ==> r == ""
    ensures i < |s| ==> s == s[..i] + r
  {
    if i < |s| then s[i..] else ""
  }

  predicate IsDigit(c: char)
  {
    '0' <= c <= '9'
  }

  predicate IsDigits(s: string)
  {
    forall k | 0 <= k < |s| :: IsDigit(s[k])
  }

  /** The value of a decimal numeral, most significant digit first. */
  function DecimalValue(s: string): nat
    requires IsDigits(s)
  {
    if |s| == 0 then 0 else 10 * DecimalValue(s[..|s| - 1]) + (s[|s| - 1] - '0') as nat
  }

  function DigitChar(d: nat): (c: char)
    requires d < 10
    ensures IsDigit(c) && (c - '0') as nat == d
  {
    ('0' as int + d) as char
  }

  /** The shortest decimal numeral of n. */
  function Digits(n: nat): (s: string)
    ensures |s| > 0 && IsDigits(s)
  {
    if n < 10 then [DigitChar(n)] else Digits(n / 10) + [DigitChar(n % 10)]
  }

  lemma {:induction false} DigitsValue(n: nat)
    ensures DecimalValue(Digits(n)) == n
  {
    var s := Digits(n);
    if n >= 10 {
      DigitsValue(n / 10);
      assert s[..|s| - 1] == Digits(n / 10);
    }
  }

  /** float(s) on a text: a non-empty run of decimal digits gives its value; the other
      forms float() accepts (signs, exponents, spaces, "inf") are not modelled and fail. */
  function ParseDecimal(s: string): (r: Result<nat>)
    ensures r.Ok? <==> |s| > 0 && IsDigits(s)
    ensures r.Ok? ==> r.value == DecimalValue(s)
    ensures r.Err? ==> r.error.ValueError?
  {
    if |s| > 0 && IsDigits(s) then Ok(DecimalValue(s))
    else Err(ValueError("could not convert string to float: '" + s + "'"))
  }

  /** Parsing a rendered number gives the number back. */
  lemma ParseDigits(n: nat)
    ensures ParseDecimal(Digits(n)) == Ok(n)
  {
    DigitsValue(n);
  }
}
