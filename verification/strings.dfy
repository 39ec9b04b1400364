/** String helpers with the JavaScript meaning the application relies on:
    `\s` / `trim` whitespace, `split` and `join` on one separator character,
    `includes`, `indexOf` and (ASCII) `toLowerCase`. A string is a sequence
    of Unicode scalar values, one `char` each; JavaScript counts UTF-16 code
    units instead, so lengths and offsets agree with it only on text without
    characters outside the Basic Multilingual Plane. */
module Strings {

  /** ECMAScript WhiteSpace and LineTerminator characters: what `\s` matches and `trim` removes. */
  predicate IsSpace(c: char) {
    var n := c as int;
    n == 0x09 || n == 0x0A || n == 0x0B || n == 0x0C || n == 0x0D || n == 0x20
    || n == 0xA0 || n == 0x1680 || (0x2000 <= n <= 0x200A) || n == 0x2028 || n == 0x2029
    || n == 0x202F || n == 0x205F || n == 0x3000 || n == 0xFEFF
  }

  predicate IsBlank(s: string) {
    forall i :: 0 <= i < |s| ==> IsSpace(s[i])
  }

  /** The longest prefix of `s` made of whitespace: `s.match(/^\s*\/)[0]`. */
  function LeadingSpace(s: string): (r: string)
    ensures r <= s
    ensures IsBlank(r)
    ensures |r| < |s| ==> !IsSpace(s[|r|])
  {
    if |s| > 0 && IsSpace(s[0]) then [s[0]] + LeadingSpace(s[1..]) else []
  }

  /** `s` with trailing whitespace removed. */
  function TrimEnd(s: string): (r: string)
    ensures r <= s
    ensures IsBlank(s[|r|..])
    ensures |r| > 0 ==> !IsSpace(r[|r| - 1])
  {
    if |s| > 0 && IsSpace(s[|s| - 1]) then TrimEnd(s[..|s| - 1]) else s
  }

  /** `s.trim()`. */
  function Trim(s: string): string {
    TrimEnd(s[|LeadingSpace(s)|..])
  }

  /** `!s.trim()` holds exactly for the strings made only of whitespace. */
  lemma TrimEmptyIffBlank(s: string)
    ensures Trim(s) == "" <==> IsBlank(s)
  {
    var lead := LeadingSpace(s);
    var rest := s[|lead|..];
    if |lead| == |s| {
      assert lead == s;
    } else {
      assert !IsSpace(s[|lead|]);
      assert rest[0] == s[|lead|];
      var trimmed := TrimEnd(rest);
      assert IsBlank(rest[|trimmed|..]);
    }
  }

  /** `s.includes(t)`. */
  predicate Contains(s: string, t: string)
    decreases |s|
  {
    t <= s || (|s| > 0 && Contains(s[1..], t))
  }

  /** An occurrence at position `k` makes `s` contain `t`. */
  lemma {:induction false} OccursContains(s: string, t: string, k: nat)
    requires k <= |s| && t <= s[k..]
    ensures Contains(s, t)
    decreases k
  {
    if k == 0 {
      assert s[0..] == s;
    } else {
      assert s[1..][k - 1..] == s[k..];
      OccursContains(s[1..], t, k - 1);
    }
  }

  /** When `s` contains `t`, there is a position where `t` starts. */
  lemma {:induction false} ContainsOccurs(s: string, t: string) returns (k: nat)
    requires Contains(s, t)
    ensures k <= |s| - |t| && t <= s[k..]
    decreases |s|
  {
    if t <= s {
      k := 0;
      assert s[0..] == s;
    } else {
      var j := ContainsOccurs(s[1..], t);
      k := j + 1;
      assert s[1..][j..] == s[k..];
    }
  }

  /** `Contains` means `t` occurs at some position of `s`. */
  lemma ContainsIffOccurs(s: string, t: string)
    ensures Contains(s, t) <==> exists k :: 0 <= k <= |s| - |t| && t <= s[k..]
  {
    if Contains(s, t) {
      var k := ContainsOccurs(s, t);
    }
    if exists k :: 0 <= k <= |s| - |t| && t <= s[k..] {
      var k :| 0 <= k <= |s| - |t| && t <= s[k..];
      OccursContains(s, t, k);
    }
  }

  /** `s.indexOf(c)` for a character known to occur. */
  function IndexOf(s: string, c: char): (r: nat)
    requires c in s
    ensures r < |s| && s[r] == c
    ensures c !in s[..r]
  {
    if s[0] == c then 0 else
      assert c in s[1..] by {
        var k :| 0 <= k < |s| && s[k] == c;
        assert s[1..][k - 1] == c;
      }
      var r := 1 + IndexOf(s[1..], c);
      assert s[..r] == [s[0]] + s[1..][..r - 1];
      r
  }

  function LowerChar(c: char): char {
    if 'A' <= c <= 'Z' then (c as int + 32) as char else c
  }

  /** `s.toLowerCase()`, restricted to the ASCII letters. */
  function Lower(s: string): (r: string)
    ensures |r| == |s|
    ensures forall i :: 0 <= i < |s| ==> r[i] == LowerChar(s[i])
  {
    seq(|s|, i requires 0 <= i < |s| => LowerChar(s[i]))
  }

  /** Number of occurrences of `d` in `s`. */
  function Count(s: string, d: char): nat {
    if |s| == 0 then 0 else (if s[0] == d then 1 else 0) + Count(s[1..], d)
  }

  /** `s.split(d)` for a one-character separator: never empty, and no piece holds `d`. */
  function Split(s: string, d: char): (r: seq<string>)
    ensures |r| >= 1
    ensures forall i :: 0 <= i < |r| ==> d !in r[i]
  {
    if |s| == 0 then [""]
    else
      var rest := Split(s[1..], d);
      if s[0] == d then [""] + rest
      else [[s[0]] + rest[0]] + rest[1..]
  }

  /** `ls.join(d)`. */
  function Join(ls: seq<string>, d: char): string {
    if |ls| == 0 then ""
    else if |ls| == 1 then ls[0]
    else ls[0] + [d] + Join(ls[1..], d)
  }

  /** The last piece of `s.split(d)`: the text after the last separator. */
  function LastPiece(s: string, d: char): string {
    var pieces := Split(s, d);
    pieces[|pieces| - 1]
  }

  /** `split` yields one more piece than there are separators. */
  lemma {:induction false} SplitLength(s: string, d: char)
    ensures |Split(s, d)| == Count(s, d) + 1
  {
    if |s| > 0 {
      SplitLength(s[1..], d);
    }
  }

  /** A string without the separator splits into itself alone. */
  lemma {:induction false} SplitNoSeparator(s: string, d: char)
    requires d !in s
    ensures Split(s, d) == [s]
  {
    if |s| > 0 {
      assert s[0] != d;
      assert d !in s[1..];
      SplitNoSeparator(s[1..], d);
      assert s == [s[0]] + s[1..];
    }
  }

  /** Splitting around one separator splits both sides independently. */
  lemma {:induction false} SplitAround(a: string, b: string, d: char)
    ensures Split(a + [d] + b, d) == Split(a, d) + Split(b, d)
  {
    if |a| == 0 {
      assert a + [d] + b == [d] + b;
      assert ([d] + b)[1..] == b;
    } else {
      assert (a + [d] + b)[1..] == a[1..] + [d] + b;
      SplitAround(a[1..], b, d);
    }
  }

  /** `join` undoes `split`. */
  lemma {:induction false} JoinSplit(s: string, d: char)
    ensures Join(Split(s, d), d) == s
  {
    if |s| > 0 {
      JoinSplit(s[1..], d);
      var rest := Split(s[1..], d);
      if s[0] == d {
        assert [""] + rest == [""] + rest;
        assert ([""] + rest)[1..] == rest;
        assert s == [d] + s[1..];
      } else {
        var r := [[s[0]] + rest[0]] + rest[1..];
        if |rest| == 1 {
          assert s == [s[0]] + s[1..];
        } else {
          assert r[1..] == rest[1..];
          assert Join(rest, d) == rest[0] + [d] + Join(rest[1..], d);
          assert s == [s[0]] + s[1..];
        }
      }
    }
  }

  /** `split` undoes `join` when no piece holds the separator. */
  lemma {:induction false} SplitJoin(ls: seq<string>, d: char)
    requires |ls| >= 1
    requires forall i :: 0 <= i < |ls| ==> d !in ls[i]
    ensures Split(Join(ls, d), d) == ls
  {
    if |ls| == 1 {
      SplitNoSeparator(ls[0], d);
    } else {
      SplitJoin(ls[1..], d);
      SplitNoSeparator(ls[0], d);
      SplitAround(ls[0], Join(ls[1..], d), d);
      assert ls == [ls[0]] + ls[1..];
    }
  }

  /** Text that ends with a separator and then a separator-free tail has that tail as its last piece. */
  lemma LastPieceAfterSeparator(a: string, b: string, d: char)
    requires d !in b
    ensures LastPiece(a + [d] + b, d) == b
  {
    SplitAround(a, b, d);
    SplitNoSeparator(b, d);
  }

  /** The last piece of a non-empty text: the whole text when it has no separator,
      otherwise the last piece of its tail. */
  lemma LastPieceCons(s: string, d: char)
    requires |s| > 0
    ensures LastPiece(s, d) == if d !in s then s else LastPiece(s[1..], d)
  {
    var rest := Split(s[1..], d);
    if d !in s {
      SplitNoSeparator(s, d);
    } else if s[0] != d && |rest| == 1 {
      JoinSplit(s[1..], d);
      assert false;
    }
  }

  /** The last piece is a separator-free suffix that starts the text or follows a separator. */
  lemma {:induction false} LastPieceIsSuffix(s: string, d: char)
    ensures |LastPiece(s, d)| <= |s|
    ensures LastPiece(s, d) == s[|s| - |LastPiece(s, d)|..]
    ensures d !in LastPiece(s, d)
    ensures |LastPiece(s, d)| < |s| ==> s[|s| - |LastPiece(s, d)| - 1] == d
  {
    if |s| == 0 {
      assert LastPiece(s, d) == "";
    } else {
      LastPieceCons(s, d);
      if d in s {
        var last := LastPiece(s[1..], d);
        LastPieceIsSuffix(s[1..], d);
        assert s[1..][|s| - 1 - |last|..] == s[|s| - |last|..];
        if |last| < |s| - 1 {
          assert s[1..][|s| - 1 - |last| - 1] == s[|s| - |last| - 1];
        } else {
          assert last == s[1..];
          assert s == [s[0]] + s[1..];
        }
      }
    }
  }
}
