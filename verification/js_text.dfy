/** The JavaScript string primitives the handler relies on: the white-space
    set shared by `String.prototype.trim` and `parseInt`, `trim` itself, and
    `split` on a one-character separator. Strings are sequences of Unicode
    scalar values; every white-space character lies in the Basic Multilingual
    Plane, so this agrees with JavaScript's UTF-16 code units for the
    characters that matter here. */
module JsText {

  /** WhiteSpace and LineTerminator code points of ECMAScript (sections
      12.2 and 12.3 of ECMA-262): TAB, VT, FF, ZWNBSP, the space separators
      (category Zs) and LF, CR, LS, PS. All of them lie in the Basic
      Multilingual Plane, so each is a single UTF-16 code unit. */
  predicate IsWhiteSpace(c: char)
    ensures IsWhiteSpace(c) ==> c as int < 0x1_0000
  {
    var u := c as int;
    || u == 0x09 || u == 0x0B || u == 0x0C || u == 0xFEFF
    || u == 0x20 || u == 0xA0 || u == 0x1680 || (0x2000 <= u <= 0x200A)
    || u == 0x202F || u == 0x205F || u == 0x3000
    || u == 0x0A || u == 0x0D || u == 0x2028 || u == 0x2029
  }

  predicate AllWhiteSpace(s: string) {
    forall i :: 0 <= i < |s| ==> IsWhiteSpace(s[i])
  }

  /** Drops leading white space: the result is the suffix of `s` that starts
      at its first non-white-space character. */
  function TrimStart(s: string): (r: string)
    ensures |r| <= |s| && r == s[|s| - |r|..]
    ensures AllWhiteSpace(s[..|s| - |r|])
    ensures |r| > 0 ==> !IsWhiteSpace(r[0])
  {
    if |s| > 0 && IsWhiteSpace(s[0]) then TrimStart(s[1..]) else s
  }

  /** Drops trailing white space: the result is the prefix of `s` that ends
      at its last non-white-space character. */
  function TrimEnd(s: string): (r: string)
    ensures |r| <= |s| && r == s[..|r|]
    ensures AllWhiteSpace(s[|r|..])
    ensures |r| > 0 ==> !IsWhiteSpace(r[|r| - 1])
  {
    if |s| > 0 && IsWhiteSpace(s[|s| - 1]) then TrimEnd(s[..|s| - 1]) else s
  }

  /** `r = TrimEnd(TrimStart(s))` is the slice of `s` that starts where
      `TrimStart` cut. */
  lemma {:induction false} TrimmedSlice(s: string, t: string, r: string)
    requires t == TrimStart(s) && r == TrimEnd(t)
    ensures |s| - |t| + |r| <= |s|
    ensures r == s[|s| - |t|..|s| - |t| + |r|]
  {
    var a := |s| - |t|;
    assert t == s[a..] && r == t[..|r|];
    PrefixOfSuffix(s, a, |r|);
  }

  /** Taking a prefix of a suffix is taking a middle slice. */
  lemma PrefixOfSuffix(s: string, a: nat, n: nat)
    requires a + n <= |s|
    ensures s[a..][..n] == s[a..a + n]
  {
  }

  /** Only white space lies after that slice. */
  lemma {:induction false} TrimmedTail(s: string, t: string, r: string)
    requires t == TrimStart(s) && r == TrimEnd(t)
    ensures |s| - |t| + |r| <= |s|
    ensures AllWhiteSpace(s[|s| - |t| + |r|..])
  {
    var a := |s| - |t|;
    assert t == s[a..] && AllWhiteSpace(t[|r|..]);
    assert s[a..][|r|..] == s[a + |r|..];
  }

  /** The slice does not start with white space. */
  lemma {:induction false} TrimmedHead(s: string, t: string, r: string)
    requires t == TrimStart(s) && r == TrimEnd(t)
    ensures |r| > 0 ==> !IsWhiteSpace(r[0])
  {
  }

  /** `String.prototype.trim`: white space removed from both ends. The
      result is a slice of `s` whose two ends are not white space, and
      everything cut off on either side is white space. */
  function Trim(s: string): (r: string)
    ensures |r| > 0 ==> !IsWhiteSpace(r[0]) && !IsWhiteSpace(r[|r| - 1])
    ensures exists a, b :: 0 <= a <= b <= |s| && r == s[a..b] && AllWhiteSpace(s[..a]) && AllWhiteSpace(s[b..])
  {
    var t := TrimStart(s);
    var r := TrimEnd(t);
    TrimmedSlice(s, t, r);
    TrimmedTail(s, t, r);
    TrimmedHead(s, t, r);
    r
  }

  /** A string trims to the empty string exactly when it is all white space. */
  lemma TrimEmptyIffAllWhiteSpace(s: string)
    ensures Trim(s) == "" <==> AllWhiteSpace(s)
  {
    var t := TrimStart(s);
    assert t[0..] == t;
    assert s[..|s|] == s;
    if |t| > 0 {
      assert t[0] == s[|s| - |t|];
    }
  }

  /** `s.split(sep)` for a one-character separator: the maximal runs of
      non-separator characters between separators, always at least one
      (`"".split("\n")` is `[""]`). */
  function Split(s: string, sep: char): (r: seq<string>)
    ensures |r| > 0
    ensures forall i :: 0 <= i < |r| ==> sep !in r[i]
  {
    if |s| == 0 then [""]
    else
      var rest := Split(s[1..], sep);
      if s[0] == sep then [""] + rest
      else [[s[0]] + rest[0]] + rest[1..]
  }

  /** There is one piece more than there are separators. */
  lemma {:induction false} SplitCount(s: string, sep: char)
    ensures |Split(s, sep)| == multiset(s)[sep] + 1
    decreases |s|
  {
    if |s| > 0 {
      SplitCount(s[1..], sep);
      assert s == [s[0]] + s[1..];
    }
  }

  /** `lines.join(sep)`: the inverse of `Split`. */
  function Join(lines: seq<string>, sep: char): string
    requires |lines| > 0
  {
    if |lines| == 1 then lines[0] else lines[0] + [sep] + Join(lines[1..], sep)
  }

  /** Joining the pieces of a split restores the original text. */
  lemma {:induction false} JoinSplit(s: string, sep: char)
    ensures Join(Split(s, sep), sep) == s
    decreases |s|
  {
    if |s| > 0 {
      var rest := Split(s[1..], sep);
      JoinSplit(s[1..], sep);
      assert s == [s[0]] + s[1..];
      if s[0] != sep {
        var r := Split(s, sep);
        assert r == [[s[0]] + rest[0]] + rest[1..];
        if |rest| == 1 {
          assert r == [[s[0]] + rest[0]];
          assert Join(r, sep) == [s[0]] + Join(rest, sep);
        } else {
          assert r[1..] == rest[1..];
          assert Join(rest, sep) == rest[0] + [sep] + Join(rest[1..], sep);
          assert Join(r, sep) == [s[0]] + rest[0] + [sep] + Join(rest[1..], sep);
        }
      } else {
        var r := Split(s, sep);
        assert r == [""] + rest;
        assert r[1..] == rest;
        assert Join(r, sep) == "" + [sep] + Join(rest, sep);
      }
    }
  }

  /** A separator-free string splits into itself alone. */
  lemma {:induction false} SplitNoSeparator(a: string, sep: char)
    requires sep !in a
    ensures Split(a, sep) == [a]
    decreases |a|
  {
    if |a| > 0 {
      assert sep !in a[1..] by {
        assert forall c :: c in a[1..] ==> c in a;
      }
      SplitNoSeparator(a[1..], sep);
      assert [a[0]] + a[1..] == a;
    }
  }

  /** A separator after a separator-free first piece ends that piece. */
  lemma {:induction false} SplitAfterPiece(a: string, sep: char, b: string)
    requires sep !in a
    ensures Split(a + [sep] + b, sep) == [a] + Split(b, sep)
    decreases |a|
  {
    var s := a + [sep] + b;
    if |a| == 0 {
      assert s[1..] == b;
    } else {
      assert sep !in a[1..] by {
        assert forall c :: c in a[1..] ==> c in a;
      }
      SplitAfterPiece(a[1..], sep, b);
      assert s[1..] == a[1..] + [sep] + b;
      assert [a[0]] + a[1..] == a;
    }
  }

  /** Splitting a join of separator-free pieces gives the pieces back. */
  lemma {:induction false} SplitJoin(lines: seq<string>, sep: char)
    requires |lines| > 0
    requires forall i :: 0 <= i < |lines| ==> sep !in lines[i]
    ensures Split(Join(lines, sep), sep) == lines
    decreases |lines|
  {
    if |lines| == 1 {
      SplitNoSeparator(lines[0], sep);
    } else {
      SplitJoin(lines[1..], sep);
      SplitAfterPiece(lines[0], sep, Join(lines[1..], sep));
      assert [lines[0]] + lines[1..] == lines;
    }
  }

  lemma AllWhiteSpaceConcat(a: string, b: string)
    ensures AllWhiteSpace(a + b) <==> AllWhiteSpace(a) && AllWhiteSpace(b)
  {
    if AllWhiteSpace(a + b) {
      assert forall i :: 0 <= i < |a| ==> a[i] == (a + b)[i];
      assert forall i :: 0 <= i < |b| ==> b[i] == (a + b)[|a| + i];
    }
  }

  /** Every piece of a split is white space only. */
  predicate AllPiecesWhiteSpace(pieces: seq<string>) {
    forall i :: 0 <= i < |pieces| ==> AllWhiteSpace(pieces[i])
  }

  lemma AllPiecesWhiteSpaceCons(a: string, pieces: seq<string>)
    ensures AllPiecesWhiteSpace([a] + pieces) <==> AllWhiteSpace(a) && AllPiecesWhiteSpace(pieces)
  {
    var all := [a] + pieces;
    assert all[0] == a;
    assert forall i :: 0 <= i < |pieces| ==> all[i + 1] == pieces[i];
  }

  /** Text is all white space exactly when every piece of its split on a
      white-space separator is. */
  lemma {:induction false} SplitAllWhiteSpace(s: string, sep: char)
    requires IsWhiteSpace(sep)
    ensures AllWhiteSpace(s) <==> AllPiecesWhiteSpace(Split(s, sep))
    decreases |s|
  {
    if |s| > 0 {
      SplitAllWhiteSpace(s[1..], sep);
      var rest := Split(s[1..], sep);
      assert s == [s[0]] + s[1..];
      AllWhiteSpaceConcat([s[0]], s[1..]);
      if s[0] != sep {
        AllWhiteSpaceConcat([s[0]], rest[0]);
        assert rest == [rest[0]] + rest[1..];
        AllPiecesWhiteSpaceCons(rest[0], rest[1..]);
        AllPiecesWhiteSpaceCons([s[0]] + rest[0], rest[1..]);
      } else {
        AllPiecesWhiteSpaceCons("", rest);
      }
    }
  }
}
