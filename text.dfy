/**
 * The JavaScript string built-ins the core relies on: `split` by a string
 * separator, `startsWith`, `trim`, `toLowerCase` (ASCII letters only) and
 * the UTF-16 `length` used by Mongoose's `minlength` / `maxlength`.
 */
module Text {

  /** `sep` occurs in `s` at index `i`. */
  predicate OccursAt(s: string, sep: string, i: nat) {
    i + |sep| <= |s| && s[i..i + |sep|] == sep
  }

  /** `sep` occurs nowhere in `s`. */
  predicate Free(s: string, sep: string) {
    forall i: nat :: i < |s| ==> !OccursAt(s, sep, i)
  }

  predicate StartsWith(s: string, prefix: string) {
    |prefix| <= |s| && s[..|prefix|] == prefix
  }

  /**
   * `s.split(sep)` for a non-empty separator: scans left to right and cuts at
   * every non-overlapping occurrence of `sep`; `"".split(sep)` is `[""]`.
   */
  function Split(s: string, sep: string): (pieces: seq<string>)
    requires sep != []
    ensures |pieces| >= 1
    decreases |s|
  {
    if |s| < |sep| then [s]
    else if s[..|sep|] == sep then [[]] + Split(s[|sep|..], sep)
    else
      var rest := Split(s[1..], sep);
      [[s[0]] + rest[0]] + rest[1..]
  }

  /** `pieces.join(sep)`. */
  function Join(pieces: seq<string>, sep: string): string {
    if |pieces| == 0 then []
    else if |pieces| == 1 then pieces[0]
    else pieces[0] + sep + Join(pieces[1..], sep)
  }

  /** Joining behind an empty first piece puts the separator in front. */
  lemma JoinEmptyHead(rest: seq<string>, sep: string)
    requires |rest| >= 1
    ensures Join([[]] + rest, sep) == sep + Join(rest, sep)
  {
    var r := [[]] + rest;
    assert r[0] == [] && r[1..] == rest;
  }

  /** Growing the first piece by one character grows the join by that character. */
  lemma JoinConsHead(c: char, rest: seq<string>, sep: string)
    requires |rest| >= 1
    ensures Join([[c] + rest[0]] + rest[1..], sep) == [c] + Join(rest, sep)
  {
    var r := [[c] + rest[0]] + rest[1..];
    if |rest| > 1 {
      assert r[1..] == rest[1..];
    }
  }

  /** Joining the pieces of a split gives back the string. */
  lemma {:induction false} JoinSplit(s: string, sep: string)
    requires sep != []
    ensures Join(Split(s, sep), sep) == s
    decreases |s|
  {
    if |s| < |sep| {
      assert Split(s, sep) == [s];
    } else if s[..|sep|] == sep {
      var rest := Split(s[|sep|..], sep);
      assert Split(s, sep) == [[]] + rest;
      JoinSplit(s[|sep|..], sep);
      JoinEmptyHead(rest, sep);
      assert s == sep + s[|sep|..];
    } else {
      var rest := Split(s[1..], sep);
      assert Split(s, sep) == [[s[0]] + rest[0]] + rest[1..];
      JoinSplit(s[1..], sep);
      JoinConsHead(s[0], rest, sep);
      assert s == [s[0]] + s[1..];
    }
  }

  /** A string in which the separator does not occur is not cut. */
  lemma {:induction false} SplitFree(s: string, sep: string)
    requires sep != [] && Free(s, sep)
    ensures Split(s, sep) == [s]
    decreases |s|
  {
    if |s| < |sep| {
    } else {
      assert !OccursAt(s, sep, 0);
      forall i: nat | i < |s[1..]|
        ensures !OccursAt(s[1..], sep, i)
      {
        assert !OccursAt(s, sep, i + 1);
        if i + |sep| <= |s[1..]| {
          assert s[1..][i..i + |sep|] == s[i + 1..i + 1 + |sep|];
        }
      }
      SplitFree(s[1..], sep);
      assert [s[0]] + s[1..] == s;
    }
  }

  /** A string without the separator's first character holds no occurrence of it. */
  lemma HeadAbsentFree(s: string, sep: string)
    requires sep != [] && sep[0] !in s
    ensures Free(s, sep)
  {
    forall i: nat | i < |s|
      ensures !OccursAt(s, sep, i)
    {
      assert s[i] != sep[0];
      if i + |sep| <= |s| {
        assert s[i..i + |sep|][0] == s[i];
      }
    }
  }

  lemma CharFree(s: string, c: char)
    requires c !in s
    ensures Free(s, [c])
  {
    HeadAbsentFree(s, [c]);
  }

  /** Splitting cuts at the first occurrence, here right after `a`. */
  lemma {:induction false} SplitAfter(a: string, sep: string, b: string)
    requires sep != [] && sep[0] !in a
    ensures Split(a + sep + b, sep) == [a] + Split(b, sep)
    decreases |a|
  {
    var s := a + sep + b;
    if a == [] {
      assert s[..|sep|] == sep;
      assert s[|sep|..] == b;
    } else {
      assert s[0] == a[0] != sep[0];
      assert s[..|sep|] != sep by {
        assert s[..|sep|][0] == s[0];
      }
      assert s[1..] == a[1..] + sep + b;
      SplitAfter(a[1..], sep, b);
      assert [a[0]] + a[1..] == a;
    }
  }

  lemma SplitCons(a: string, c: char, b: string)
    requires c !in a
    ensures Split(a + [c] + b, [c]) == [a] + Split(b, [c])
  {
    SplitAfter(a, [c], b);
  }

  /** Splitting a join gives the pieces back when no piece holds the separator's first character. */
  lemma {:induction false} SplitJoin(pieces: seq<string>, sep: string)
    requires sep != [] && |pieces| >= 1
    requires forall k :: 0 <= k < |pieces| ==> sep[0] !in pieces[k]
    ensures Split(Join(pieces, sep), sep) == pieces
    decreases |pieces|
  {
    if |pieces| == 1 {
      HeadAbsentFree(pieces[0], sep);
      SplitFree(pieces[0], sep);
    } else {
      SplitJoin(pieces[1..], sep);
      SplitAfter(pieces[0], sep, Join(pieces[1..], sep));
      assert [pieces[0]] + pieces[1..] == pieces;
    }
  }

  /**
   * The first piece of a split at `c` is the longest prefix without `c`:
   * it is followed by `c` or ends the string.
   */
  lemma {:induction false} SplitHead(s: string, c: char)
    ensures var h := Split(s, [c])[0];
      StartsWith(s, h) && c !in h && (|h| == |s| || s[|h|] == c)
    decreases |s|
  {
    if |s| >= 1 && s[..1] != [c] {
      SplitHead(s[1..], c);
      var h := Split(s[1..], [c])[0];
      assert s[0] != c by { assert s[..1][0] == s[0]; }
      assert Split(s, [c])[0] == [s[0]] + h;
      assert s == [s[0]] + s[1..];
    }
  }

  /** Every character of a join comes from a piece or from the separator. */
  lemma {:induction false} JoinChars(pieces: seq<string>, sep: string, allowed: set<char>)
    requires forall k, i :: 0 <= k < |pieces| && 0 <= i < |pieces[k]| ==> pieces[k][i] in allowed
    requires forall i :: 0 <= i < |sep| ==> sep[i] in allowed
    ensures forall i :: 0 <= i < |Join(pieces, sep)| ==> Join(pieces, sep)[i] in allowed
    decreases |pieces|
  {
    if |pieces| > 1 {
      JoinChars(pieces[1..], sep, allowed);
      var j := Join(pieces[1..], sep);
      forall i | 0 <= i < |pieces[0] + sep + j|
        ensures (pieces[0] + sep + j)[i] in allowed
      {
        if i < |pieces[0]| {
        } else if i < |pieces[0]| + |sep| {
        } else {
          assert (pieces[0] + sep + j)[i] == j[i - |pieces[0]| - |sep|];
        }
      }
    }
  }

  /**
   * The characters `String.prototype.trim` removes and the regular
   * expression class `\s` matches: WhiteSpace and LineTerminator.
   */
  predicate IsSpace(c: char) {
    c == '\t' || c == '\n' || c == '\U{000B}' || c == '\U{000C}' || c == '\r' || c == ' '
    || c == '\U{00A0}' || c == '\U{1680}' || ('\U{2000}' <= c <= '\U{200A}')
    || c == '\U{2028}' || c == '\U{2029}' || c == '\U{202F}' || c == '\U{205F}'
    || c == '\U{3000}' || c == '\U{FEFF}'
  }

  predicate NoSpace(s: string) {
    forall i :: 0 <= i < |s| ==> !IsSpace(s[i])
  }

  /** Removes leading white space. */
  function TrimStart(s: string): (r: string)
    ensures |r| <= |s| && r == s[|s| - |r|..]
    ensures r == [] || !IsSpace(r[0])
    ensures forall k :: 0 <= k < |s| - |r| ==> IsSpace(s[k])
  {
    if s != [] && IsSpace(s[0]) then TrimStart(s[1..]) else s
  }

  /** Removes trailing white space. */
  function TrimEnd(s: string): (r: string)
    ensures |r| <= |s| && r == s[..|r|]
    ensures r == [] || !IsSpace(r[|r| - 1])
    ensures forall k :: |r| <= k < |s| ==> IsSpace(s[k])
  {
    if s != [] && IsSpace(s[|s| - 1]) then TrimEnd(s[..|s| - 1]) else s
  }

  /**
   * `s.trim()`: the result neither starts nor ends with white space, and a
   * string that already does neither is left as it is.
   */
  function Trim(s: string): (r: string)
    ensures |r| <= |s|
    ensures r == [] || (!IsSpace(r[0]) && !IsSpace(r[|r| - 1]))
    ensures (s == [] || (!IsSpace(s[0]) && !IsSpace(s[|s| - 1]))) ==> r == s
  {
    var t := TrimStart(s);
    var r := TrimEnd(t);
    assert r != [] ==> r[0] == t[0];
    r
  }

  /** Trimming twice is trimming once. */
  lemma TrimIdempotent(s: string)
    ensures Trim(Trim(s)) == Trim(s)
  {
    var t := Trim(s);
    if t != [] {
      assert TrimStart(s) != [];
      assert t[0] == TrimStart(s)[0];
      assert TrimStart(t) == t;
    }
  }

  /** `toLowerCase` of one character; only the letters A to Z are mapped. */
  function LowerChar(c: char): (d: char)
    ensures 'A' <= c <= 'Z' ==> d as int == c as int + 32
    ensures !('A' <= c <= 'Z') ==> d == c
    ensures !('A' <= d <= 'Z')
  {
    if 'A' <= c <= 'Z' then (c as int + 32) as char else c
  }

  /** `s.toLowerCase()`, restricted to ASCII letters. */
  function ToLower(s: string): (r: string)
    ensures |r| == |s|
    ensures forall i :: 0 <= i < |s| ==> r[i] == LowerChar(s[i])
    ensures forall i :: 0 <= i < |r| ==> !('A' <= r[i] <= 'Z')
  {
    seq(|s|, i requires 0 <= i < |s| => LowerChar(s[i]))
  }

  /** Lowering keeps white space where it was and leaves other characters non-space. */
  lemma LowerKeepsSpace(c: char)
    ensures IsSpace(LowerChar(c)) <==> IsSpace(c)
  {
  }

  /** Lowering keeps a string free of white space at both ends. */
  lemma LowerEnds(s: string)
    requires s == [] || (!IsSpace(s[0]) && !IsSpace(s[|s| - 1]))
    ensures var l := ToLower(s); l == [] || (!IsSpace(l[0]) && !IsSpace(l[|l| - 1]))
  {
    if s != [] {
      LowerKeepsSpace(s[0]);
      LowerKeepsSpace(s[|s| - 1]);
    }
  }

  /** Lowering and then removing leading white space is removing it and then lowering. */
  lemma {:induction false} TrimStartLower(s: string)
    ensures TrimStart(ToLower(s)) == ToLower(TrimStart(s))
    decreases |s|
  {
    if s != [] {
      var l := ToLower(s);
      LowerKeepsSpace(s[0]);
      assert l[0] == LowerChar(s[0]);
      if IsSpace(s[0]) {
        assert l[1..] == ToLower(s[1..]);
        assert TrimStart(l) == TrimStart(l[1..]);
        assert TrimStart(s) == TrimStart(s[1..]);
        TrimStartLower(s[1..]);
      } else {
        assert TrimStart(l) == l;
        assert TrimStart(s) == s;
      }
    }
  }

  /** Lowering and then removing trailing white space is removing it and then lowering. */
  lemma {:induction false} TrimEndLower(s: string)
    ensures TrimEnd(ToLower(s)) == ToLower(TrimEnd(s))
    decreases |s|
  {
    if s != [] {
      var l := ToLower(s);
      LowerKeepsSpace(s[|s| - 1]);
      assert l[|l| - 1] == LowerChar(s[|s| - 1]);
      if IsSpace(s[|s| - 1]) {
        assert l[..|l| - 1] == ToLower(s[..|s| - 1]);
        assert TrimEnd(l) == TrimEnd(l[..|l| - 1]);
        assert TrimEnd(s) == TrimEnd(s[..|s| - 1]);
        TrimEndLower(s[..|s| - 1]);
      } else {
        assert TrimEnd(l) == l;
        assert TrimEnd(s) == s;
      }
    }
  }

  /** Lowercasing commutes with trimming. */
  lemma TrimLowerCommute(s: string)
    ensures Trim(ToLower(s)) == ToLower(Trim(s))
  {
    TrimStartLower(s);
    TrimEndLower(TrimStart(s));
  }

  /** The number of UTF-16 code units of `s`: JavaScript's `s.length`. */
  function Utf16Length(s: string): (n: nat)
    ensures |s| <= n <= 2 * |s|
    ensures (forall i :: 0 <= i < |s| ==> s[i] as int < 0x10000) ==> n == |s|
  {
    if s == [] then 0
    else (if s[0] as int >= 0x10000 then 2 else 1) + Utf16Length(s[1..])
  }
}
