/** The JavaScript string operations the service relies on, over `seq<char>`:
    `trim`, `toLowerCase`, `toUpperCase`, `split` on one character, `join`,
    and `replace` of the first occurrence of a fixed string. */
module Text {
  import opened Base

  /** JavaScript's white space and line terminators: exactly the characters
      `String.prototype.trim` removes and the regular-expression class `\s`
      matches. */
  predicate IsSpace(c: char) {
    c == '\t' || c == '\n' || c == '\U{0B}' || c == '\U{0C}' || c == '\r' || c == ' ' ||
    c == '\U{A0}' || c == '\U{1680}' || ('\U{2000}' <= c <= '\U{200A}') ||
    c == '\U{2028}' || c == '\U{2029}' || c == '\U{202F}' || c == '\U{205F}' ||
    c == '\U{3000}' || c == '\U{FEFF}'
  }

  predicate AllSpace(s: string) {
    forall i :: 0 <= i < |s| ==> IsSpace(s[i])
  }

  /** Neither starts nor ends with white space. */
  predicate IsTrimmed(s: string) {
    s == [] || (!IsSpace(s[0]) && !IsSpace(s[|s| - 1]))
  }

  /** The longest suffix of `s` that does not start with white space. */
  function TrimStart(s: string): string
    decreases |s|
  {
    if |s| > 0 && IsSpace(s[0]) then TrimStart(s[1..]) else s
  }

  /** `TrimStart` keeps a suffix that does not start with white space, and
      what it drops is white space. */
  lemma {:induction false} TrimStartShape(s: string)
    ensures var r := TrimStart(s);
      && |r| <= |s| && r == s[|s| - |r|..]
      && (r == [] || !IsSpace(r[0]))
      && AllSpace(s[..|s| - |r|])
    decreases |s|
  {
    if |s| > 0 && IsSpace(s[0]) {
      var t := s[1..];
      var r := TrimStart(t);
      TrimStartShape(t);
      assert TrimStart(s) == r;
      assert r == s[|s| - |r|..] by {
        assert t[|t| - |r|..] == s[|s| - |r|..];
      }
      assert AllSpace(s[..|s| - |r|]) by {
        assert s[..|s| - |r|] == [s[0]] + t[..|t| - |r|];
      }
    }
  }

  /** The longest prefix of `s` that does not end with white space. */
  function TrimEnd(s: string): string
    decreases |s|
  {
    if |s| > 0 && IsSpace(s[|s| - 1]) then TrimEnd(s[..|s| - 1]) else s
  }

  /** `TrimEnd` keeps a prefix that does not end with white space, and what
      it drops is white space. */
  lemma {:induction false} TrimEndShape(s: string)
    ensures var r := TrimEnd(s);
      && |r| <= |s| && r == s[..|r|]
      && (r == [] || !IsSpace(r[|r| - 1]))
      && AllSpace(s[|r|..])
    decreases |s|
  {
    if |s| > 0 && IsSpace(s[|s| - 1]) {
      var r := TrimEnd(s[..|s| - 1]);
      TrimEndShape(s[..|s| - 1]);
      assert s[|r|..] == s[..|s| - 1][|r|..] + [s[|s| - 1]];
    }
  }

  /** `String.prototype.trim`. */
  function Trim(s: string): (r: string)
    ensures IsTrimmed(r)
    ensures |r| <= |s|
  {
    TrimStartShape(s);
    TrimEndShape(TrimStart(s));
    TrimEnd(TrimStart(s))
  }

  /** What `trim` keeps is one contiguous slice of the input, and what it
      drops on either side is white space. */
  lemma TrimSpan(s: string) returns (i: nat, j: nat)
    ensures i <= j <= |s| && Trim(s) == s[i..j]
    ensures AllSpace(s[..i]) && AllSpace(s[j..])
  {
    var t := TrimStart(s);
    TrimStartShape(s);
    TrimEndShape(t);
    i := |s| - |t|;
    j := i + |Trim(s)|;
    assert s[j..] == t[|Trim(s)|..];
  }

  lemma TrimOfTrimmed(s: string)
    requires IsTrimmed(s)
    ensures Trim(s) == s
  {
  }

  /** `trim` gives the empty string exactly for blank input, which is what the
      form's `!x.trim()` tests. */
  lemma {:induction false} TrimBlank(s: string)
    ensures Trim(s) == [] <==> AllSpace(s)
  {
    var i, j := TrimSpan(s);
    if AllSpace(s) {
      TrimStartShape(s);
      assert TrimStart(s) == [];
    }
    if Trim(s) == [] {
      assert s == s[..i] + s[j..];
    }
  }

  lemma TrimIdempotent(s: string)
    ensures Trim(Trim(s)) == Trim(s)
  {
    TrimOfTrimmed(Trim(s));
  }

  /** White space in front of a string does not change its trimmed form. */
  lemma TrimSpacePrefix(c: char, t: string)
    requires IsSpace(c)
    ensures Trim([c] + t) == Trim(t)
  {
    assert ([c] + t)[1..] == t;
  }

  /** `trim` never introduces a character. */
  lemma TrimKeepsAbsent(s: string, c: char)
    requires c !in s
    ensures c !in Trim(s)
  {
    var i, j := TrimSpan(s);
  }

  // ---------------------------------------------------------------- case

  predicate IsUpperLetter(c: char) { 'A' <= c <= 'Z' }
  predicate IsLowerLetter(c: char) { 'a' <= c <= 'z' }

  function LowerChar(c: char): char {
    if IsUpperLetter(c) then (c as int + 32) as char else c
  }

  function UpperChar(c: char): char {
    if IsLowerLetter(c) then (c as int - 32) as char else c
  }

  /** No upper-case letter. */
  predicate IsLowerCase(s: string) {
    forall i :: 0 <= i < |s| ==> !IsUpperLetter(s[i])
  }

  /** No lower-case letter. */
  predicate IsUpperCase(s: string) {
    forall i :: 0 <= i < |s| ==> !IsLowerLetter(s[i])
  }

  /** `String.prototype.toLowerCase` on ASCII letters. */
  function Lower(s: string): (r: string)
    ensures |r| == |s| && IsLowerCase(r)
  {
    seq(|s|, i requires 0 <= i < |s| => LowerChar(s[i]))
  }

  /** `String.prototype.toUpperCase` on ASCII letters. */
  function Upper(s: string): (r: string)
    ensures |r| == |s| && IsUpperCase(r)
  {
    seq(|s|, i requires 0 <= i < |s| => UpperChar(s[i]))
  }

  lemma LowerOfLowerCase(s: string)
    requires IsLowerCase(s)
    ensures Lower(s) == s
  {
  }

  /** Upper-casing and lower-casing again gives back exactly the strings that
      had no upper-case letter. */
  lemma UpperLowerRoundTrip(s: string)
    ensures Lower(Upper(s)) == s <==> IsLowerCase(s)
  {
    if Lower(Upper(s)) == s {
      assert IsLowerCase(s) by {
        forall i | 0 <= i < |s| ensures !IsUpperLetter(s[i]) {
          assert Lower(Upper(s))[i] == s[i];
        }
      }
    }
  }

  lemma LowerUpperRoundTrip(s: string)
    ensures Upper(Lower(s)) == s <==> IsUpperCase(s)
  {
    if Upper(Lower(s)) == s {
      assert IsUpperCase(s) by {
        forall i | 0 <= i < |s| ensures !IsLowerLetter(s[i]) {
          assert Upper(Lower(s))[i] == s[i];
        }
      }
    }
  }

  lemma {:induction false} LowerTrimStart(s: string)
    ensures Lower(TrimStart(s)) == TrimStart(Lower(s))
    decreases |s|
  {
    if |s| > 0 && IsSpace(s[0]) {
      assert Lower(s)[1..] == Lower(s[1..]);
      LowerTrimStart(s[1..]);
    } else if |s| > 0 {
      assert Lower(s)[0] == LowerChar(s[0]);
    }
  }

  lemma {:induction false} LowerTrimEnd(s: string)
    ensures Lower(TrimEnd(s)) == TrimEnd(Lower(s))
    decreases |s|
  {
    if |s| > 0 && IsSpace(s[|s| - 1]) {
      assert Lower(s)[..|s| - 1] == Lower(s[..|s| - 1]);
      LowerTrimEnd(s[..|s| - 1]);
    } else if |s| > 0 {
      assert Lower(s)[|s| - 1] == LowerChar(s[|s| - 1]);
    }
  }

  /** Trimming then lower-casing (the form) and lower-casing then trimming
      (the schema's setters) agree. */
  lemma LowerTrimCommute(s: string)
    ensures Lower(Trim(s)) == Trim(Lower(s))
  {
    LowerTrimStart(s);
    LowerTrimEnd(TrimStart(s));
  }

  /** A trimmed string stays trimmed when lower-cased. */
  lemma LowerKeepsTrimmed(s: string)
    requires IsTrimmed(s)
    ensures IsTrimmed(Lower(s))
  {
  }

  // ---------------------------------------------------------------- split and join

  /** `String.prototype.split` with a one-character separator: the pieces
      between separators, in order; the empty string gives one empty piece. */
  function Split(s: string, sep: char): (r: seq<string>)
    ensures |r| >= 1
    ensures forall i :: 0 <= i < |r| ==> sep !in r[i]
    decreases |s|
  {
    if |s| == 0 then [[]]
    else if s[0] == sep then [[]] + Split(s[1..], sep)
    else
      var rest := Split(s[1..], sep);
      [[s[0]] + rest[0]] + rest[1..]
  }

  /** `Array.prototype.join`. */
  function Join(xs: seq<string>, sep: string): string
    decreases |xs|
  {
    if |xs| == 0 then []
    else if |xs| == 1 then xs[0]
    else xs[0] + sep + Join(xs[1..], sep)
  }

  /** A leading character other than the separator joins the first piece. */
  lemma SplitNonSeparator(c: char, t: string, sep: char)
    requires c != sep
    ensures Split([c] + t, sep) == [[c] + Split(t, sep)[0]] + Split(t, sep)[1..]
  {
    assert ([c] + t)[1..] == t;
  }

  /** Joining the pieces of a split with the separator restores the input. */
  lemma {:induction false} JoinSplit(s: string, c: char)
    ensures Join(Split(s, c), [c]) == s
    decreases |s|
  {
    if |s| == 0 {
    } else if s[0] == c {
      JoinSplit(s[1..], c);
      assert ([[]] + Split(s[1..], c))[1..] == Split(s[1..], c);
    } else {
      var rest := Split(s[1..], c);
      JoinSplit(s[1..], c);
      var r := [[s[0]] + rest[0]] + rest[1..];
      if |rest| == 1 {
        assert s == [s[0]] + s[1..];
      } else {
        assert r[1..] == rest[1..];
        assert Join(rest, [c]) == rest[0] + [c] + Join(rest[1..], [c]);
        assert s == [s[0]] + s[1..];
      }
    }
  }

  lemma {:induction false} SplitWithoutSeparator(x: string, c: char)
    requires c !in x
    ensures Split(x, c) == [x]
    decreases |x|
  {
    if |x| > 0 {
      SplitWithoutSeparator(x[1..], c);
      assert x == [x[0]] + x[1..];
    }
  }

  /** The first piece ends at the first separator. */
  lemma {:induction false} SplitAtSeparator(x: string, c: char, rest: string)
    requires c !in x
    ensures Split(x + [c] + rest, c) == [x] + Split(rest, c)
    decreases |x|
  {
    var s := x + [c] + rest;
    if |x| == 0 {
      assert s[1..] == rest;
    } else {
      assert s[1..] == x[1..] + [c] + rest;
      SplitAtSeparator(x[1..], c, rest);
      assert x == [x[0]] + x[1..];
    }
  }

  /** Splitting a join of separator-free pieces gives the pieces back. */
  lemma {:induction false} SplitJoin(xs: seq<string>, c: char)
    requires |xs| >= 1
    requires forall i :: 0 <= i < |xs| ==> c !in xs[i]
    ensures Split(Join(xs, [c]), c) == xs
    decreases |xs|
  {
    if |xs| == 1 {
      SplitWithoutSeparator(xs[0], c);
    } else {
      SplitJoin(xs[1..], c);
      SplitAtSeparator(xs[0], c, Join(xs[1..], [c]));
      assert xs == [xs[0]] + xs[1..];
    }
  }

  // ---------------------------------------------------------------- replace

  predicate OccursAt(s: string, pat: string, i: int) {
    0 <= i && i + |pat| <= |s| && s[i..i + |pat|] == pat
  }

  lemma OccursShift(s: string, pat: string)
    requires |s| > 0
    ensures forall k :: 0 <= k ==> (OccursAt(s[1..], pat, k) <==> OccursAt(s, pat, k + 1))
    ensures forall k :: 1 <= k ==> (OccursAt(s, pat, k) <==> OccursAt(s[1..], pat, k - 1))
  {
    forall k | 0 <= k
      ensures OccursAt(s[1..], pat, k) <==> OccursAt(s, pat, k + 1)
    {
      if k + |pat| <= |s| - 1 {
        assert s[1..][k..k + |pat|] == s[k + 1..k + 1 + |pat|];
      }
    }
  }

  /** `String.prototype.indexOf`: the first position where `pat` occurs. */
  function IndexOf(s: string, pat: string): (r: Option<nat>)
    ensures r.Some? ==> OccursAt(s, pat, r.value)
    ensures r.Some? ==> forall j :: 0 <= j < r.value ==> !OccursAt(s, pat, j)
    ensures r.None? ==> forall j :: !OccursAt(s, pat, j)
    decreases |s|
  {
    if |s| < |pat| then None
    else if s[..|pat|] == pat then Some(0)
    else
      OccursShift(s, pat);
      assert !OccursAt(s, pat, 0) by { assert s[0..|pat|] == s[..|pat|]; }
      match IndexOf(s[1..], pat)
      case None => None
      case Some(k) => Some(k + 1)
  }

  /** `s.replace(pat, '')`: the first occurrence of `pat` removed; a string
      without `pat` is returned as it is. */
  function RemoveFirst(s: string, pat: string): (r: string)
    ensures (forall j :: !OccursAt(s, pat, j)) ==> r == s
    ensures forall i :: OccursAt(s, pat, i) && (forall j :: 0 <= j < i ==> !OccursAt(s, pat, j)) ==>
              r == s[..i] + s[i + |pat|..]
  {
    match IndexOf(s, pat)
    case None => s
    case Some(i) => s[..i] + s[i + |pat|..]
  }

  /** A string that starts with `pat` loses exactly that leading copy. */
  lemma RemoveLeading(s: string, pat: string)
    requires OccursAt(s, pat, 0)
    ensures RemoveFirst(s, pat) == s[|pat|..]
  {
    assert s[..0] == [];
  }

  /** Removing a prefix that was just put in front gives back the rest. */
  lemma RemovePrefix(pat: string, t: string)
    ensures RemoveFirst(pat + t, pat) == t
  {
    assert OccursAt(pat + t, pat, 0);
  }
}
