/**
 The string primitives the link store relies on: `String.prototype.trim`,
 `String.prototype.toLowerCase` (restricted to ASCII letters) and
 `String.prototype.includes`, each given by a recursive definition and tied by
 lemmas to an independent description of what it computes.
 */
module Text {

  /** The characters `trim` strips: ECMAScript WhiteSpace and LineTerminator. */
  predicate IsWhitespace(c: char)
  {
    var n := c as int;
    || 0x09 <= n <= 0x0D                      // tab, line feed, vertical tab, form feed, carriage return
    || n == 0x20 || n == 0xA0 || n == 0x1680  // space, no-break space, ogham space mark
    || 0x2000 <= n <= 0x200A                  // en quad .. hair space
    || n == 0x2028 || n == 0x2029             // line and paragraph separators
    || n == 0x202F || n == 0x205F || n == 0x3000
    || n == 0xFEFF                            // byte order mark
  }

  ghost predicate AllWhitespace(s: string)
  {
    forall i :: 0 <= i < |s| ==> IsWhitespace(s[i])
  }

  /** Drops leading whitespace: the result is a suffix of `s`, everything cut is whitespace. */
  function TrimStart(s: string): (r: string)
    ensures |r| <= |s| && r == s[|s| - |r|..]
    ensures AllWhitespace(s[..|s| - |r|])
    ensures r == [] || !IsWhitespace(r[0])
  {
    if s != [] && IsWhitespace(s[0]) then TrimStart(s[1..]) else s
  }

  /** Drops trailing whitespace: the result is a prefix of `s`, everything cut is whitespace. */
  function TrimEnd(s: string): (r: string)
    ensures |r| <= |s| && r == s[..|r|]
    ensures AllWhitespace(s[|r|..])
    ensures r == [] || !IsWhitespace(r[|r| - 1])
  {
    if s != [] && IsWhitespace(s[|s| - 1]) then TrimEnd(s[..|s| - 1]) else s
  }

  /** `s.trim()`: the middle slice of `s` between its leading and trailing whitespace. */
  function Trim(s: string): (r: string)
    ensures |r| <= |s|
  {
    TrimEnd(TrimStart(s))
  }

  /** Trim keeps a contiguous slice of its input and strips only whitespace around it. */
  lemma TrimIsSlice(s: string) returns (lo: nat, hi: nat)
    ensures lo <= hi <= |s| && Trim(s) == s[lo..hi]
    ensures AllWhitespace(s[..lo]) && AllWhitespace(s[hi..])
    ensures Trim(s) == [] || (!IsWhitespace(Trim(s)[0]) && !IsWhitespace(Trim(s)[|Trim(s)| - 1]))
  {
    var t := TrimStart(s);
    var u := TrimEnd(t);
    assert Trim(s) == u;
    lo := |s| - |t|;
    hi := lo + |u|;
    assert t == s[lo..];
    assert u == t[..hi - lo] == s[lo..hi];
    assert s[hi..] == t[hi - lo..];
    assert u == [] || u[0] == t[0];
  }

  /** The trimmed text is empty exactly when the input is all whitespace (JS `!s.trim()`). */
  lemma TrimEmptyIff(s: string)
    ensures Trim(s) == [] <==> AllWhitespace(s)
  {
    var t := TrimStart(s);
    if Trim(s) == [] {
      assert s[..|s|] == s;
    } else if AllWhitespace(s) {
      assert false;
    }
  }

  /** Trimming twice is trimming once. */
  lemma TrimIdempotent(s: string)
    ensures Trim(Trim(s)) == Trim(s)
  {
    var r := Trim(s);
    if r != [] {
      var _, _ := TrimIsSlice(s);
      assert TrimStart(r) == r;
      assert TrimEnd(r) == r;
    }
  }

  /** ASCII lowercasing of one character; every other character is left as is. */
  function LowerChar(c: char): (d: char)
  {
    if 'A' <= c <= 'Z' then (c as int + 32) as char else c
  }

  /** `s.toLowerCase()` over the ASCII range. */
  function ToLower(s: string): (r: string)
    ensures |r| == |s|
    ensures forall i :: 0 <= i < |s| ==> r[i] == LowerChar(s[i])
  {
    if s == [] then [] else [LowerChar(s[0])] + ToLower(s[1..])
  }

  /** Lowercased text has no upper-case ASCII letter left, and lowercasing again changes nothing. */
  lemma ToLowerIdempotent(s: string)
    ensures forall i :: 0 <= i < |s| ==> !('A' <= ToLower(s)[i] <= 'Z')
    ensures ToLower(ToLower(s)) == ToLower(s)
  {
  }

  /** Lowercasing never turns whitespace into non-whitespace or back. */
  lemma LowerCharWhitespace(c: char)
    ensures IsWhitespace(LowerChar(c)) == IsWhitespace(c)
  {
  }

  /** Stripping leading whitespace commutes with lowercasing. */
  lemma {:induction false} TrimStartLower(s: string)
    ensures TrimStart(ToLower(s)) == ToLower(TrimStart(s))
  {
    if s != [] {
      LowerCharWhitespace(s[0]);
      assert ToLower(s)[1..] == ToLower(s[1..]);
      if IsWhitespace(s[0]) {
        TrimStartLower(s[1..]);
      }
    }
  }

  /** Stripping trailing whitespace commutes with lowercasing. */
  lemma {:induction false} TrimEndLower(s: string)
    ensures TrimEnd(ToLower(s)) == ToLower(TrimEnd(s))
  {
    if s != [] {
      LowerCharWhitespace(s[|s| - 1]);
      assert ToLower(s)[..|s| - 1] == ToLower(s[..|s| - 1]);
      if IsWhitespace(s[|s| - 1]) {
        TrimEndLower(s[..|s| - 1]);
      }
    }
  }

  /** Lowercasing then trimming, as the search box does, gives the same term as trimming then lowercasing. */
  lemma LowerTrimCommute(s: string)
    ensures Trim(ToLower(s)) == ToLower(Trim(s))
  {
    TrimStartLower(s);
    TrimEndLower(TrimStart(s));
  }

  /** `t` occurs in `s` starting at position `i`. */
  ghost predicate OccursAt(s: string, t: string, i: int)
  {
    0 <= i && i + |t| <= |s| && s[i..i + |t|] == t
  }

  /** `s.includes(t)`: does `t` occur anywhere in `s`? */
  function Includes(s: string, t: string): (found: bool)
    ensures found ==> |t| <= |s|
    decreases |s|
  {
    if |t| > |s| then false
    else if s[..|t|] == t then true
    else Includes(s[1..], t)
  }

  /** Includes answers true exactly when the needle occurs at some position. */
  lemma {:induction false} IncludesIff(s: string, t: string)
    ensures Includes(s, t) <==> exists i :: OccursAt(s, t, i)
    decreases |s|
  {
    if |t| > |s| {
    } else if s[..|t|] == t {
      assert OccursAt(s, t, 0);
    } else {
      IncludesIff(s[1..], t);
      if exists i :: OccursAt(s[1..], t, i) {
        var i :| OccursAt(s[1..], t, i);
        assert s[1..][i..i + |t|] == s[i + 1..i + 1 + |t|];
        assert OccursAt(s, t, i + 1);
      }
      if exists i :: OccursAt(s, t, i) {
        var i :| OccursAt(s, t, i);
        assert i != 0;
        assert s[1..][i - 1..i - 1 + |t|] == s[i..i + |t|];
        assert OccursAt(s[1..], t, i - 1);
      }
    }
  }

  /** Every string includes the empty string. */
  lemma IncludesEmpty(s: string)
    ensures Includes(s, [])
  {
    assert s[..0] == [];
  }
}
