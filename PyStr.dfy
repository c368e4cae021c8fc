/** The Python `str` operations the recipe search depends on: `lower`,
    `title`, `strip`, `split(',')` and the substring test `t in s`.
    Case is modelled for the ASCII letters; `isspace` for every code point
    Python counts as whitespace. */
module PyStr {

  // ---------------------------------------------------------------- characters

  predicate IsUpper(c: char) { 'A' <= c <= 'Z' }

  predicate IsLower(c: char) { 'a' <= c <= 'z' }

  /** Python's "cased" characters: those that have an upper and a lower form. */
  predicate IsCased(c: char) { IsUpper(c) || IsLower(c) }

  function LowerChar(c: char): char
  {
    if IsUpper(c) then (c as int + 32) as char else c
  }

  function UpperChar(c: char): char
  {
    if IsLower(c) then (c as int - 32) as char else c
  }

  /** `c.isspace()`: the ASCII controls TAB..CR and FS..US, SPACE, NEL, NBSP
      and the Unicode space separators, line and paragraph separators. */
  predicate IsSpace(c: char)
  {
    var n := c as int;
    || 9 <= n <= 13
    || 28 <= n <= 32
    || n == 0x85 || n == 0xA0 || n == 0x1680
    || 0x2000 <= n <= 0x200A
    || n == 0x2028 || n == 0x2029 || n == 0x202F || n == 0x205F || n == 0x3000
  }

  /** Changing case keeps a character cased (or uncased) and never makes
      whitespace of it or removes it. */
  lemma CaseMapsKeepClass(c: char)
    ensures IsCased(LowerChar(c)) == IsCased(c) && IsCased(UpperChar(c)) == IsCased(c)
    ensures IsSpace(LowerChar(c)) == IsSpace(c) && IsSpace(UpperChar(c)) == IsSpace(c)
    ensures !IsUpper(LowerChar(c)) && !IsLower(UpperChar(c))
    ensures LowerChar(UpperChar(c)) == LowerChar(c) && UpperChar(LowerChar(c)) == UpperChar(c)
    ensures LowerChar(LowerChar(c)) == LowerChar(c)
  {
  }

  // ---------------------------------------------------------------- lower

  /** `s.lower()`. */
  function Lower(s: string): (r: string)
    ensures |r| == |s|
    ensures forall i :: 0 <= i < |s| ==> !IsUpper(r[i]) && IsSpace(r[i]) == IsSpace(s[i])
    ensures forall i :: 0 <= i < |s| ==> UpperChar(r[i]) == UpperChar(s[i])
  {
    seq(|s|, i requires 0 <= i < |s| => LowerChar(s[i]))
  }

  /** Lower-casing twice is lower-casing once. */
  lemma LowerIdempotent(s: string)
    ensures Lower(Lower(s)) == Lower(s)
  {
    forall i | 0 <= i < |s| ensures Lower(Lower(s))[i] == Lower(s)[i] {
      CaseMapsKeepClass(s[i]);
    }
  }

  /** A string with no upper-case letter is its own lower-case form. */
  lemma LowerFixed(s: string)
    requires forall i :: 0 <= i < |s| ==> !IsUpper(s[i])
    ensures Lower(s) == s
  {
  }

  /** Lower-casing commutes with slicing. */
  lemma LowerSlice(s: string, i: nat, j: nat)
    requires i <= j <= |s|
    ensures Lower(s[i..j]) == Lower(s)[i..j]
  {
  }

  // ---------------------------------------------------------------- title

  /** `s.title()`: one left-to-right pass that remembers whether the previous
      character was cased; a cased character is upper-cased after an uncased
      one (or at the start) and lower-cased after a cased one. */
  function Title(s: string): (r: string)
    ensures |r| == |s|
    ensures forall i :: 0 <= i < |s| ==> r[i] == TitleCharAt(s, i)
  {
    TitleFromStart(s);
    TitleFrom(s, false)
  }

  function TitleFrom(s: string, previousIsCased: bool): (r: string)
    ensures |r| == |s|
  {
    if s == [] then []
    else
      var c := s[0];
      var d := if !IsCased(c) then c else if previousIsCased then LowerChar(c) else UpperChar(c);
      [d] + TitleFrom(s[1..], IsCased(c))
  }

  /** The character `s.title()` puts at position `i`, read off the input
      alone: words are the maximal runs of cased characters. */
  ghost function TitleCharAt(s: string, i: nat): char
    requires i < |s|
  {
    if !IsCased(s[i]) then s[i]
    else if i > 0 && IsCased(s[i - 1]) then LowerChar(s[i])
    else UpperChar(s[i])
  }

  lemma {:induction false} TitleFromAt(s: string, previousIsCased: bool, i: nat)
    requires i < |s|
    ensures TitleFrom(s, previousIsCased)[i] ==
      if !IsCased(s[i]) then s[i]
      else if (if i == 0 then previousIsCased else IsCased(s[i - 1])) then LowerChar(s[i])
      else UpperChar(s[i])
  {
    if i > 0 {
      TitleFromAt(s[1..], IsCased(s[0]), i - 1);
    }
  }

  lemma TitleFromStart(s: string)
    ensures forall i :: 0 <= i < |s| ==> TitleFrom(s, false)[i] == TitleCharAt(s, i)
  {
    forall i | 0 <= i < |s| ensures TitleFrom(s, false)[i] == TitleCharAt(s, i) {
      TitleFromAt(s, false, i);
    }
  }

  /** Every word of `s.title()` starts upper-case and continues lower-case;
      characters without case are left as they are. */
  lemma TitleAt(s: string)
    ensures |Title(s)| == |s|
    ensures forall i :: 0 <= i < |s| ==> Title(s)[i] == TitleCharAt(s, i)
  {
    forall i | 0 <= i < |s| ensures Title(s)[i] == TitleCharAt(s, i) {
      TitleFromAt(s, false, i);
    }
  }

  /** Title-casing changes only the case of letters: the result is equal to
      the input once both are lower-cased. */
  lemma TitleKeepsLetters(s: string)
    ensures Lower(Title(s)) == Lower(s)
  {
    TitleAt(s);
    forall i | 0 <= i < |s| ensures Lower(Title(s))[i] == Lower(s)[i] {
      CaseMapsKeepClass(s[i]);
    }
  }

  /** Title-casing an already title-cased string changes nothing. */
  lemma TitleIdempotent(s: string)
    ensures Title(Title(s)) == Title(s)
  {
    var t := Title(s);
    TitleAt(s);
    TitleAt(t);
    forall i | 0 <= i < |s| ensures Title(t)[i] == t[i] {
      CaseMapsKeepClass(s[i]);
      if i > 0 {
        CaseMapsKeepClass(s[i - 1]);
      }
    }
  }

  // ---------------------------------------------------------------- strip

  predicate AllSpace(s: string)
  {
    forall i :: 0 <= i < |s| ==> IsSpace(s[i])
  }

  /** `s.lstrip()`: the suffix left after dropping leading whitespace. */
  function TrimStart(s: string): (r: string)
    ensures |r| <= |s| && r == s[|s| - |r|..]
    ensures AllSpace(s[..|s| - |r|])
    ensures r == [] || !IsSpace(r[0])
  {
    if s != [] && IsSpace(s[0]) then
      var r := TrimStart(s[1..]);
      TrimStartStep(s, r);
      r
    else s
  }

  /** What `TrimStart` promises of the tail of `s`, after a blank first
      character, it promises of `s`. */
  lemma TrimStartStep(s: string, r: string)
    requires s != [] && IsSpace(s[0])
    requires |r| <= |s| - 1 && r == s[1..][|s| - 1 - |r|..]
    requires AllSpace(s[1..][..|s| - 1 - |r|])
    ensures r == s[|s| - |r|..]
    ensures AllSpace(s[..|s| - |r|])
  {
    var k := |s| - |r|;
    assert s[1..][k - 1..] == s[k..];
    forall j | 0 <= j < k ensures IsSpace(s[j]) {
      if j > 0 {
        assert s[1..][..k - 1][j - 1] == s[j];
      }
    }
  }

  /** `s.rstrip()`: the prefix left after dropping trailing whitespace. */
  function TrimEnd(s: string): (r: string)
    ensures |r| <= |s| && r == s[..|r|]
    ensures AllSpace(s[|r|..])
    ensures r == [] || !IsSpace(r[|r| - 1])
  {
    if s != [] && IsSpace(s[|s| - 1]) then
      var r := TrimEnd(s[..|s| - 1]);
      TrimEndStep(s, r);
      r
    else s
  }

  /** What `TrimEnd` promises of `s` without its last character, when that
      character is blank, it promises of `s`. */
  lemma TrimEndStep(s: string, r: string)
    requires s != [] && IsSpace(s[|s| - 1])
    requires |r| <= |s| - 1 && r == s[..|s| - 1][..|r|]
    requires AllSpace(s[..|s| - 1][|r|..])
    ensures r == s[..|r|]
    ensures AllSpace(s[|r|..])
  {
    var k := |r|;
    forall j | k <= j < |s| ensures IsSpace(s[j]) {
      if j < |s| - 1 {
        assert s[..|s| - 1][k..][j - k] == s[j];
      }
    }
  }

  /** `s.strip()`: the middle of `s` between its leading and its trailing
      whitespace; it neither starts nor ends with whitespace. */
  function Strip(s: string): (r: string)
    ensures r == [] || (!IsSpace(r[0]) && !IsSpace(r[|r| - 1]))
    ensures exists i :: StrippedAt(s, r, i)
  {
    StripShape(s);
    TrimEnd(TrimStart(s))
  }

  /** `r` is the slice of `s` at `i`, with only whitespace around it. */
  predicate StrippedAt(s: string, r: string, i: int)
  {
    0 <= i <= |s| - |r| && r == s[i..i + |r|] && AllSpace(s[..i]) && AllSpace(s[i + |r|..])
  }

  /** Trimming the start and then the end cuts only whitespace and leaves
      no whitespace at either end. */
  lemma StripShape(s: string)
    ensures var r := TrimEnd(TrimStart(s));
      r == [] || (!IsSpace(r[0]) && !IsSpace(r[|r| - 1]))
    ensures StrippedAt(s, TrimEnd(TrimStart(s)), |s| - |TrimStart(s)|)
  {
    var t := TrimStart(s);
    TrimmedSlices(s, t, TrimEnd(t));
  }

  /** A suffix `t` of `s` after leading whitespace, and a prefix `r` of `t`
      before trailing whitespace, make `r` the stripped middle of `s`. */
  lemma TrimmedSlices(s: string, t: string, r: string)
    requires |t| <= |s| && t == s[|s| - |t|..] && AllSpace(s[..|s| - |t|])
    requires t == [] || !IsSpace(t[0])
    requires |r| <= |t| && r == t[..|r|] && AllSpace(t[|r|..])
    requires r == [] || !IsSpace(r[|r| - 1])
    ensures r == [] || (!IsSpace(r[0]) && !IsSpace(r[|r| - 1]))
    ensures StrippedAt(s, r, |s| - |t|)
  {
    var i := |s| - |t|;
    assert r == s[i..i + |r|];
    assert s[i + |r|..] == t[|r|..];
    assert r == [] || r[0] == t[0];
  }

  /** `s.strip()` is empty exactly when `s` is blank (empty or all whitespace). */
  lemma StripBlank(s: string)
    ensures Strip(s) == [] <==> AllSpace(s)
  {
    var t := TrimStart(s);
    var r := TrimEnd(t);
    StripShape(s);
    if r == [] {
      assert t[0..] == t;
      assert t == [];
      assert s[..|s|] == s;
    } else {
      var i := |s| - |t|;
      assert s[i] == r[0];
    }
  }

  /** Stripping twice is stripping once. */
  lemma StripIdempotent(s: string)
    ensures Strip(Strip(s)) == Strip(s)
  {
    var r := Strip(s);
    assert TrimStart(r) == r;
    assert TrimEnd(r) == r;
  }

  // ---------------------------------------------------------------- split

  /** `s.split(sep)` for a one-character separator: the pieces between
      separators, in order; there is always at least one, possibly empty. */
  function Split(s: string, sep: char): (r: seq<string>)
    ensures |r| >= 1
    ensures forall k :: 0 <= k < |r| ==> sep !in r[k]
  {
    if s == [] then [[]]
    else
      var rest := Split(s[1..], sep);
      if s[0] == sep then [[]] + rest
      else [[s[0]] + rest[0]] + rest[1..]
  }

  /** `sep.join(pieces)`, the inverse of `Split`. */
  function JoinWith(pieces: seq<string>, sep: char): string
  {
    if |pieces| == 0 then []
    else if |pieces| == 1 then pieces[0]
    else pieces[0] + [sep] + JoinWith(pieces[1..], sep)
  }

  /** Joining the pieces of a split with the separator gives back the input:
      `Split` loses nothing and invents nothing. */
  lemma {:induction false} SplitJoin(s: string, sep: char)
    ensures JoinWith(Split(s, sep), sep) == s
  {
    if s != [] {
      var rest := Split(s[1..], sep);
      SplitJoin(s[1..], sep);
      if s[0] == sep {
        assert Split(s, sep) == [[]] + rest;
        assert ([[]] + rest)[1..] == rest;
      } else {
        var r := [[s[0]] + rest[0]] + rest[1..];
        assert Split(s, sep) == r;
        if |rest| == 1 {
          assert JoinWith(rest, sep) == rest[0];
        } else {
          assert r[1..] == rest[1..];
          assert JoinWith(rest, sep) == rest[0] + [sep] + JoinWith(rest[1..], sep);
        }
      }
    }
  }

  /** Splitting a piece that holds no separator gives that one piece. */
  lemma {:induction false} SplitSingle(x: string, sep: char)
    requires sep !in x
    ensures Split(x, sep) == [x]
  {
    if x != [] {
      assert sep !in x[1..] by {
        forall k | 0 <= k < |x| - 1 ensures x[1..][k] != sep {
          assert x[1..][k] == x[k + 1];
        }
      }
      SplitSingle(x[1..], sep);
      assert [x[0]] + x[1..] == x;
    }
  }

  /** A separator right after a separator-free piece ends that piece. */
  lemma {:induction false} SplitCons(x: string, sep: char, y: string)
    requires sep !in x
    ensures Split(x + [sep] + y, sep) == [x] + Split(y, sep)
  {
    var s := x + [sep] + y;
    if x == [] {
      assert s[0] == sep && s[1..] == y;
    } else {
      assert sep !in x[1..] by {
        forall k | 0 <= k < |x| - 1 ensures x[1..][k] != sep {
          assert x[1..][k] == x[k + 1];
        }
      }
      SplitCons(x[1..], sep, y);
      assert s[1..] == x[1..] + [sep] + y;
      assert s[0] == x[0] && s[0] != sep;
      assert [x[0]] + x[1..] == x;
    }
  }

  /** Splitting the join of separator-free pieces gives the pieces back. */
  lemma {:induction false} JoinSplit(pieces: seq<string>, sep: char)
    requires |pieces| >= 1
    requires forall k :: 0 <= k < |pieces| ==> sep !in pieces[k]
    ensures Split(JoinWith(pieces, sep), sep) == pieces
  {
    if |pieces| == 1 {
      SplitSingle(pieces[0], sep);
    } else {
      JoinSplit(pieces[1..], sep);
      SplitCons(pieces[0], sep, JoinWith(pieces[1..], sep));
      assert [pieces[0]] + pieces[1..] == pieces;
    }
  }

  // ---------------------------------------------------------------- substring

  /** `t in s` for two strings, computed by trying each start position in
      turn; the empty string occurs in every string. */
  predicate Occurs(t: string, s: string): (found: bool)
    ensures t == [] ==> found
    ensures found ==> |t| <= |s|
    decreases |s|
  {
    |t| <= |s| && (s[..|t|] == t || Occurs(t, s[1..]))
  }

  /** `t` is a contiguous substring of `s` starting at position `i`. */
  ghost predicate OccursAt(t: string, s: string, i: int)
  {
    0 <= i <= |s| - |t| && s[i..i + |t|] == t
  }

  /** `t` is a contiguous substring of `s`. */
  ghost predicate IsSubstring(t: string, s: string)
  {
    exists i :: OccursAt(t, s, i)
  }

  /** The search finds `t` exactly when `t` starts at some position of `s`. */
  lemma {:induction false} OccursIff(t: string, s: string)
    ensures Occurs(t, s) <==> IsSubstring(t, s)
    decreases |s|
  {
    if |t| <= |s| {
      if s[..|t|] == t {
        assert OccursAt(t, s, 0);
      } else {
        OccursIff(t, s[1..]);
        if Occurs(t, s[1..]) {
          var i :| OccursAt(t, s[1..], i);
          OccursShift(t, s, i);
        }
        if i :| OccursAt(t, s, i) {
          OccursUnshift(t, s, i);
        }
      }
    }
  }

  /** An occurrence in the tail of `s` is an occurrence in `s`, one further on. */
  lemma OccursShift(t: string, s: string, i: int)
    requires s != [] && OccursAt(t, s[1..], i)
    ensures OccursAt(t, s, i + 1)
  {
    assert s[1..][i..i + |t|] == s[i + 1..i + 1 + |t|];
  }

  /** An occurrence in `s` past position 0 is an occurrence in its tail. */
  lemma OccursUnshift(t: string, s: string, i: int)
    requires OccursAt(t, s, i) && (i != 0 || s[..|t|] != t)
    ensures i > 0 && OccursAt(t, s[1..], i - 1)
  {
    assert s[1..][i - 1..i - 1 + |t|] == s[i..i + |t|];
  }

  /** A string occurs in any string that contains it. */
  lemma OccursIn(pre: string, t: string, post: string)
    ensures Occurs(t, pre + t + post)
  {
    var s := pre + t + post;
    assert s[|pre|..|pre| + |t|] == t;
    assert OccursAt(t, s, |pre|);
    OccursIff(t, s);
  }
}
