/**
 * ASCII models of the Python string built-ins that the job-card extraction
 * relies on: `str.isspace`, `str.lower`, `in` on strings, `str.strip()`,
 * `str.split()`, `str.split(sep)`, `sep.join(...)` and `str.replace`.
 */
module Text {

  /** `c.isspace()` restricted to ASCII: HT, LF, VT, FF, CR, the separators FS, GS, RS, US, and space. */
  predicate IsSpace(c: char) {
    (9 <= c as int <= 13) || (28 <= c as int <= 31) || c == ' '
  }

  predicate AllSpace(s: string) {
    forall k :: 0 <= k < |s| ==> IsSpace(s[k])
  }

  predicate NoSpace(s: string) {
    forall k :: 0 <= k < |s| ==> !IsSpace(s[k])
  }

  // ---------------------------------------------------------------- lower

  /** ASCII `str.lower` on one character: only `A`..`Z` change. */
  function LowerChar(c: char): char {
    if 'A' <= c <= 'Z' then (c as int - 'A' as int + 'a' as int) as char else c
  }

  /** ASCII `s.lower()`. */
  function Lower(s: string): (r: string)
    ensures |r| == |s|
  {
    if s == [] then [] else [LowerChar(s[0])] + Lower(s[1..])
  }

  /** Lower-casing works character by character. */
  lemma {:induction false} LowerAt(s: string)
    ensures forall k :: 0 <= k < |s| ==> Lower(s)[k] == LowerChar(s[k])
  {
    if s != [] {
      LowerAt(s[1..]);
      assert forall k :: 1 <= k < |s| ==> Lower(s)[k] == Lower(s[1..])[k - 1];
    }
  }

  /** A string with no upper-case letter is its own lower-cased form. */
  lemma LowerUnchanged(s: string)
    requires forall k :: 0 <= k < |s| ==> !('A' <= s[k] <= 'Z')
    ensures Lower(s) == s
  {
    LowerAt(s);
  }

  /** On one character: no upper-case letter is left, whitespace stays whitespace, and a second pass changes nothing. */
  lemma LowerCharProperties(c: char)
    ensures !('A' <= LowerChar(c) <= 'Z')
    ensures IsSpace(LowerChar(c)) <==> IsSpace(c)
    ensures LowerChar(LowerChar(c)) == LowerChar(c)
  {
  }

  /** Lower-casing leaves no upper-case letter, keeps whitespace where it was, and is idempotent. */
  lemma LowerProperties(s: string)
    ensures forall k :: 0 <= k < |s| ==> !('A' <= Lower(s)[k] <= 'Z')
    ensures forall k :: 0 <= k < |s| ==> (IsSpace(Lower(s)[k]) <==> IsSpace(s[k]))
    ensures Lower(Lower(s)) == Lower(s)
  {
    LowerAt(s);
    LowerAt(Lower(s));
    forall k | 0 <= k < |s|
      ensures Lower(s)[k] == LowerChar(s[k])
      ensures !('A' <= Lower(s)[k] <= 'Z')
      ensures IsSpace(Lower(s)[k]) <==> IsSpace(s[k])
      ensures Lower(Lower(s))[k] == Lower(s)[k]
    {
      LowerCharProperties(s[k]);
    }
  }

  // ------------------------------------------------------------ substring

  /** `sub` occurs in `s` starting at index `i`. */
  ghost predicate OccursAt(s: string, sub: string, i: int) {
    0 <= i && i + |sub| <= |s| && s[i..i + |sub|] == sub
  }

  /** Python's `sub in s` for strings. */
  function Contains(s: string, sub: string): bool
    decreases |s|
  {
    if |sub| > |s| then false
    else if s[..|sub|] == sub then true
    else Contains(s[1..], sub)
  }

  /** `Contains` holds exactly when `sub` occurs at some index of `s`. */
  lemma {:induction false} ContainsIff(s: string, sub: string)
    ensures Contains(s, sub) <==> exists i :: OccursAt(s, sub, i)
    decreases |s|
  {
    if |sub| > |s| {
    } else if s[..|sub|] == sub {
      assert OccursAt(s, sub, 0);
    } else {
      ContainsIff(s[1..], sub);
      if exists i :: OccursAt(s[1..], sub, i) {
        var i :| OccursAt(s[1..], sub, i);
        assert s[i + 1..i + 1 + |sub|] == s[1..][i..i + |sub|];
        assert OccursAt(s, sub, i + 1);
      }
      if exists i :: OccursAt(s, sub, i) {
        var i :| OccursAt(s, sub, i);
        assert i != 0;
        assert s[1..][i - 1..i - 1 + |sub|] == s[i..i + |sub|];
        assert OccursAt(s[1..], sub, i - 1);
      }
    }
  }

  /** Python's `any(p in s for p in pats)`. */
  function AnyIn(pats: seq<string>, s: string): bool {
    if pats == [] then false else Contains(s, pats[0]) || AnyIn(pats[1..], s)
  }

  /** `AnyIn` holds exactly when some pattern is contained in `s`. */
  lemma {:induction false} AnyInIff(pats: seq<string>, s: string)
    ensures AnyIn(pats, s) <==> exists k :: 0 <= k < |pats| && Contains(s, pats[k])
  {
    if pats != [] {
      AnyInIff(pats[1..], s);
      assert forall k :: 1 <= k < |pats| ==> pats[k] == pats[1..][k - 1];
    }
  }

  /** A string that contains a pattern with a non-whitespace character is not all whitespace. */
  lemma ContainsNonSpace(s: string, sub: string, j: nat)
    requires Contains(s, sub)
    requires j < |sub| && !IsSpace(sub[j])
    ensures !AllSpace(s)
  {
    ContainsIff(s, sub);
    var i :| OccursAt(s, sub, i);
    assert s[i + j] == s[i..i + |sub|][j];
  }

  /** A string cannot contain a pattern whose first character it lacks. */
  lemma {:induction false} MissingFirstChar(s: string, sub: string)
    requires sub != [] && sub[0] !in s
    ensures !Contains(s, sub)
    decreases |s|
  {
    if |sub| <= |s| {
      assert s[..|sub|][0] == s[0] != sub[0];
      assert forall c :: c in s[1..] ==> c in s;
      MissingFirstChar(s[1..], sub);
    }
  }

  // ---------------------------------------------------------------- strip

  /** `s.lstrip()`: drop the leading whitespace. */
  function StripLeft(s: string): (r: string)
    ensures |r| <= |s|
  {
    if s != [] && IsSpace(s[0]) then StripLeft(s[1..]) else s
  }

  /** `s.rstrip()`: drop the trailing whitespace. */
  function StripRight(s: string): string {
    if s != [] && IsSpace(s[|s| - 1]) then StripRight(s[..|s| - 1]) else s
  }

  /** `StripLeft` keeps a suffix and drops only whitespace, up to the first non-whitespace character. */
  lemma {:induction false} StripLeftSpec(s: string)
    ensures var r := StripLeft(s);
      |r| <= |s| && r == s[|s| - |r|..] && AllSpace(s[..|s| - |r|]) && (r == [] || !IsSpace(r[0]))
  {
    if s != [] && IsSpace(s[0]) {
      StripLeftSpec(s[1..]);
      var r := StripLeft(s);
      assert s[..|s| - |r|] == [s[0]] + s[1..][..|s| - 1 - |r|];
    }
  }

  /** `StripRight` keeps a prefix and drops only whitespace, back to the last non-whitespace character. */
  lemma {:induction false} StripRightSpec(s: string)
    ensures var r := StripRight(s);
      |r| <= |s| && r == s[..|r|] && AllSpace(s[|r|..]) && (r == [] || !IsSpace(r[|r| - 1]))
  {
    if s != [] && IsSpace(s[|s| - 1]) {
      StripRightSpec(s[..|s| - 1]);
      var r := StripRight(s);
      assert s[|r|..] == s[..|s| - 1][|r|..] + [s[|s| - 1]];
    }
  }

  /** Index of the first character `Strip(s)` keeps. */
  function StripStart(s: string): nat {
    |s| - |StripLeft(s)|
  }

  /**
   * Python's `s.strip()` with no argument: drop leading and trailing
   * whitespace. `StripSpec` says what it keeps.
   */
  function Strip(s: string): string {
    StripRight(StripLeft(s))
  }

  /**
   * `Strip` keeps the middle slice of `s` between whitespace-only ends; what it
   * keeps neither starts nor ends with whitespace, and it keeps nothing exactly
   * when `s` is all whitespace.
   */
  lemma StripSpec(s: string)
    ensures var r := Strip(s);
      && StripStart(s) + |r| <= |s| && r == s[StripStart(s)..StripStart(s) + |r|]
      && AllSpace(s[..StripStart(s)]) && AllSpace(s[StripStart(s) + |r|..])
      && (r == [] || (!IsSpace(r[0]) && !IsSpace(r[|r| - 1])))
      && (r == [] <==> AllSpace(s))
  {
    var l := StripLeft(s);
    var r := StripRight(l);
    var i := StripStart(s);
    StripLeftSpec(s);
    StripRightSpec(l);
    assert s[i + |r|..] == l[|r|..];
    assert r == l[..|r|] == s[i..][..|r|];
    if r == [] {
      assert l[|r|..] == l;
      assert l == [];
      forall k | 0 <= k < |s| ensures IsSpace(s[k]) {
        assert s[k] == s[..i][k];
      }
    } else {
      assert s[i] == l[0];
    }
  }

  /** Stripping twice is stripping once. */
  lemma StripIdempotent(s: string)
    ensures Strip(Strip(s)) == Strip(s)
  {
    var r := Strip(s);
    StripSpec(s);
    if r != [] {
      assert StripLeft(r) == r;
      assert StripRight(r) == r;
    }
  }

  // ---------------------------------------------------------------- split

  /** The longest prefix of `s` that holds no whitespace. */
  function TakeWord(s: string): (w: string)
    ensures |w| <= |s| && w == s[..|w|] && NoSpace(w)
    ensures |w| == |s| || IsSpace(s[|w|])
  {
    if s == [] || IsSpace(s[0]) then [] else [s[0]] + TakeWord(s[1..])
  }

  /** Python's `s.split()` with no argument: the maximal runs of non-whitespace, in order. */
  function Split(s: string): seq<string>
    decreases |s|
  {
    StripLeftSpec(s);
    var t := StripLeft(s);
    if t == [] then []
    else
      var w := TakeWord(t);
      [w] + Split(t[|w|..])
  }

  /** Every word is non-empty and free of whitespace, and there are none exactly when `s` is all whitespace. */
  lemma {:induction false} SplitSpec(s: string)
    ensures forall k :: 0 <= k < |Split(s)| ==> Split(s)[k] != [] && NoSpace(Split(s)[k])
    ensures Split(s) == [] <==> AllSpace(s)
    decreases |s|
  {
    StripLeftSpec(s);
    var t := StripLeft(s);
    if t == [] {
      assert s[..|s|] == s;
    } else {
      var w := TakeWord(t);
      assert s[|s| - |t|] == t[0];
      SplitSpec(t[|w|..]);
      assert forall k :: 1 <= k < |Split(s)| ==> Split(s)[k] == Split(t[|w|..])[k - 1];
    }
  }

  /** Python's `sep.join(pieces)`. */
  function Join(pieces: seq<string>, sep: string): string {
    if pieces == [] then ""
    else if |pieces| == 1 then pieces[0]
    else pieces[0] + sep + Join(pieces[1..], sep)
  }

  lemma {:induction false} TakeWordOf(w: string, tail: string)
    requires NoSpace(w)
    requires tail == [] || IsSpace(tail[0])
    ensures TakeWord(w + tail) == w
  {
    if w != [] {
      assert (w + tail)[1..] == w[1..] + tail;
      TakeWordOf(w[1..], tail);
    }
  }

  lemma SplitLeadingSpace(c: char, s: string)
    requires IsSpace(c)
    ensures Split([c] + s) == Split(s)
  {
    assert ([c] + s)[1..] == s;
  }

  /** A single word splits into itself. */
  lemma SplitWord(w: string)
    requires w != [] && NoSpace(w)
    ensures Split(w) == [w]
  {
    assert StripLeft(w) == w;
    assert w + [] == w;
    TakeWordOf(w, []);
    assert w[|w|..] == [];
  }

  /** A word followed by a space splits off as the first word. */
  lemma SplitWordSpace(w: string, rest: string)
    requires w != [] && NoSpace(w)
    ensures Split(w + " " + rest) == [w] + Split(rest)
  {
    var s := w + " " + rest;
    assert s == w + (" " + rest);
    assert StripLeft(s) == s;
    TakeWordOf(w, " " + rest);
    assert s[|w|..] == [' '] + rest;
    SplitLeadingSpace(' ', rest);
  }

  /** Splitting words joined by single spaces gives the words back. */
  lemma {:induction false} SplitJoin(words: seq<string>)
    requires forall k :: 0 <= k < |words| ==> words[k] != [] && NoSpace(words[k])
    ensures Split(Join(words, " ")) == words
  {
    if words == [] {
    } else if |words| == 1 {
      SplitWord(words[0]);
    } else {
      SplitWordSpace(words[0], Join(words[1..], " "));
      SplitJoin(words[1..]);
      assert words == [words[0]] + words[1..];
    }
  }

  // ----------------------------------------------------- split on a separator

  /** Python's `s.split(sep)` for a one-character separator: the pieces between separators, never none. */
  function SplitOn(s: string, sep: char): (pieces: seq<string>)
    ensures |pieces| >= 1
    ensures forall k :: 0 <= k < |pieces| ==> sep !in pieces[k]
  {
    if s == [] then [""]
    else
      var rest := SplitOn(s[1..], sep);
      if s[0] == sep then [""] + rest else [[s[0]] + rest[0]] + rest[1..]
  }

  /** Joining the pieces with the separator restores the string. */
  lemma {:induction false} JoinSplitOn(s: string, sep: char)
    ensures Join(SplitOn(s, sep), [sep]) == s
  {
    if s != [] {
      var rest := SplitOn(s[1..], sep);
      JoinSplitOn(s[1..], sep);
      if s[0] == sep {
        assert SplitOn(s, sep)[1..] == rest;
      } else {
        var pieces := SplitOn(s, sep);
        if |rest| == 1 {
          assert pieces == [[s[0]] + rest[0]];
        } else {
          assert pieces[1..] == rest[1..];
          assert Join(rest, [sep]) == rest[0] + [sep] + Join(rest[1..], [sep]);
        }
        assert s == [s[0]] + s[1..];
      }
    }
  }

  lemma {:induction false} SplitOnPrefix(p: string, t: string, sep: char)
    requires sep !in p
    ensures SplitOn(p + t, sep) == [p + SplitOn(t, sep)[0]] + SplitOn(t, sep)[1..]
  {
    if p != [] {
      assert (p + t)[1..] == p[1..] + t;
      SplitOnPrefix(p[1..], t, sep);
      assert [p[0]] + (p[1..] + SplitOn(t, sep)[0]) == p + SplitOn(t, sep)[0];
    } else {
      var pieces := SplitOn(t, sep);
      assert p + t == t;
      assert p + pieces[0] == pieces[0];
      assert pieces == [pieces[0]] + pieces[1..];
    }
  }

  /** Splitting separator-free pieces joined by the separator gives the pieces back. */
  lemma {:induction false} SplitOnJoin(pieces: seq<string>, sep: char)
    requires |pieces| >= 1
    requires forall k :: 0 <= k < |pieces| ==> sep !in pieces[k]
    ensures SplitOn(Join(pieces, [sep]), sep) == pieces
  {
    var p := pieces[0];
    if |pieces| == 1 {
      SplitOnPrefix(p, "", sep);
      assert p + "" == p;
    } else {
      var rest := Join(pieces[1..], [sep]);
      SplitOnJoin(pieces[1..], sep);
      assert SplitOn([sep] + rest, sep) == [""] + pieces[1..] by {
        assert ([sep] + rest)[1..] == rest;
      }
      assert p + [sep] + rest == p + ([sep] + rest);
      SplitOnPrefix(p, [sep] + rest, sep);
      assert p + "" == p;
      assert pieces == [p] + pieces[1..];
    }
  }

  // -------------------------------------------------------------- replace

  /** Python's `s.replace(a, b)` for single characters. */
  function ReplaceChar(s: string, a: char, b: char): (r: string)
    ensures |r| == |s|
    ensures forall k :: 0 <= k < |s| ==> r[k] == (if s[k] == a then b else s[k])
  {
    if s == [] then [] else [if s[0] == a then b else s[0]] + ReplaceChar(s[1..], a, b)
  }

  /** After replacing `a` by another character, no `a` is left; swapping back restores a string that had no `b`. */
  lemma ReplaceCharInverse(s: string, a: char, b: char)
    requires a != b
    ensures a !in ReplaceChar(s, a, b)
    ensures b !in s ==> ReplaceChar(ReplaceChar(s, a, b), b, a) == s
  {
    var r := ReplaceChar(s, a, b);
    forall k | 0 <= k < |r| ensures r[k] != a {
    }
  }
}
