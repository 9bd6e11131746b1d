/**
  The few Python `str` operations the notebook helper relies on, written over
  `seq<char>`: `strip()`, `split(sep)`, `sep.join(parts)`, `replace(old, "")`,
  `rstrip(c)`, and ASCII `lower()` / `capitalize()`.
 */
module Strings {

  function Min(a: int, b: int): int
  {
    if a <= b then a else b
  }

  /** The characters Python's `str.isspace()` accepts, which `str.strip()` removes. */
  predicate IsSpace(c: char)
  {
    || ('\t' <= c <= '\r')
    || ('\U{1C}' <= c <= '\U{1F}')
    || c == ' '
    || c == '\U{85}'
    || c == '\U{A0}'
    || c == '\U{1680}'
    || ('\U{2000}' <= c <= '\U{200A}')
    || c == '\U{2028}'
    || c == '\U{2029}'
    || c == '\U{202F}'
    || c == '\U{205F}'
    || c == '\U{3000}'
  }

  /** `s.lstrip()`: the longest suffix of `s` that does not start with whitespace. */
  function TrimStart(s: string): (r: string)
    ensures |r| <= |s| && r == s[|s| - |r|..]
    ensures r == "" || !IsSpace(r[0])
    ensures forall i :: 0 <= i < |s| - |r| ==> IsSpace(s[i])
    decreases |s|
  {
    if |s| > 0 && IsSpace(s[0]) then TrimStart(s[1..]) else s
  }

  /** `s.rstrip()`: the longest prefix of `s` that does not end with whitespace. */
  function TrimEnd(s: string): (r: string)
    ensures |r| <= |s| && r == s[..|r|]
    ensures r == "" || !IsSpace(r[|r| - 1])
    ensures forall i :: |r| <= i < |s| ==> IsSpace(s[i])
    decreases |s|
  {
    if |s| > 0 && IsSpace(s[|s| - 1]) then TrimEnd(s[..|s| - 1]) else s
  }

  /** `s.strip()`. It is empty exactly when `s` is all whitespace. */
  function Strip(s: string): (r: string)
    ensures |r| <= |s|
    ensures r == "" <==> forall i :: 0 <= i < |s| ==> IsSpace(s[i])
    ensures r == "" || (!IsSpace(r[0]) && !IsSpace(r[|r| - 1]))
  {
    var front := TrimStart(s);
    assert front == "" ==> TrimEnd(front) == "";
    TrimEnd(front)
  }

  predicate AllSpace(t: string)
  {
    forall i :: 0 <= i < |t| ==> IsSpace(t[i])
  }

  /** The whitespace `s.lstrip()` cuts off the front of `s`. */
  function Leading(s: string): string
  {
    s[..|s| - |TrimStart(s)|]
  }

  /** The whitespace `s.strip()` cuts off the back of `s`. */
  function Trailing(s: string): string
  {
    TrimStart(s)[|TrimEnd(TrimStart(s))|..]
  }

  /** `s.strip()` is the middle of `s`: only whitespace is cut off on either side. */
  lemma StripSlice(s: string)
    ensures s == Leading(s) + Strip(s) + Trailing(s)
    ensures AllSpace(Leading(s)) && AllSpace(Trailing(s))
  {
    TrimStartSplit(s);
    TrimEndSplit(TrimStart(s));
    Regroup(s, Leading(s), TrimStart(s), Strip(s), Trailing(s));
  }

  lemma Regroup(s: string, a: string, f: string, m: string, b: string)
    requires s == a + f && f == m + b
    ensures s == a + m + b
  {
  }

  lemma TrimStartSplit(s: string)
    ensures s == Leading(s) + TrimStart(s) && AllSpace(Leading(s))
  {
  }

  lemma TrimEndSplit(s: string)
    ensures s == TrimEnd(s) + s[|TrimEnd(s)|..] && AllSpace(s[|TrimEnd(s)|..])
  {
    var cut := s[|TrimEnd(s)|..];
    forall i | 0 <= i < |cut|
      ensures IsSpace(cut[i])
    {
      assert cut[i] == s[|TrimEnd(s)| + i];
    }
  }

  /** A string whose ends are not whitespace is left unchanged by strip(). */
  lemma StripUnchanged(s: string)
    requires s != "" && !IsSpace(s[0]) && !IsSpace(s[|s| - 1])
    ensures Strip(s) == s
  {
    assert TrimStart(s) == s;
    assert TrimEnd(s) == s;
  }

  /** `s.rstrip(c)` for a single character `c`. */
  function TrimEndChar(s: string, c: char): (r: string)
    ensures |r| <= |s| && r == s[..|r|]
    ensures r == "" || r[|r| - 1] != c
    ensures forall i :: |r| <= i < |s| ==> s[i] == c
    decreases |s|
  {
    if |s| > 0 && s[|s| - 1] == c then TrimEndChar(s[..|s| - 1], c) else s
  }

  predicate StartsWith(s: string, p: string)
  {
    |p| <= |s| && s[..|p|] == p
  }

  /** `p in s`: `p` occurs in `s` at some position. */
  predicate Contains(s: string, p: string)
    ensures Contains(s, p) ==> |p| <= |s|
    decreases |s|
  {
    StartsWith(s, p) || (|s| > 0 && Contains(s[1..], p))
  }

  /**
    `s.replace(p, "")` for a non-empty `p`: scanning left to right, every
    occurrence of `p` that does not overlap an earlier removed one is dropped.
    The result is shorter than `s` exactly when `p` occurs in `s`.
   */
  function RemoveAll(s: string, p: string): (r: string)
    requires p != ""
    ensures |r| <= |s|
    ensures |r| < |s| <==> Contains(s, p)
    ensures !Contains(s, p) ==> r == s
    decreases |s|
  {
    if |s| < |p| then s
    else if s[..|p|] == p then RemoveAll(s[|p|..], p)
    else [s[0]] + RemoveAll(s[1..], p)
  }

  /** `replace` keeps a first character that cannot start an occurrence of `p`. */
  lemma RemoveAllCons(c: char, s: string, p: string)
    requires p != "" && c != p[0]
    ensures RemoveAll([c] + s, p) == [c] + RemoveAll(s, p)
  {
    assert ([c] + s)[1..] == s;
    if |[c] + s| >= |p| {
      assert ([c] + s)[..|p|][0] != p[0];
    }
  }

  /** `replace` keeps a character that does not start an occurrence of `p`. */
  lemma RemoveAllKeeps(s: string, p: string)
    requires p != "" && s != "" && !StartsWith(s, p)
    ensures RemoveAll(s, p) == [s[0]] + RemoveAll(s[1..], p)
  {
  }

  /** `replace` drops an occurrence of `p` at the front and goes on after it. */
  lemma RemoveAllDrops(s: string, p: string)
    requires p != "" && StartsWith(s, p)
    ensures RemoveAll(s, p) == RemoveAll(s[|p|..], p)
  {
  }

  /**
    `pieces` describe `s.replace(p, "")`: none of them contains `p`, joined
    by `p` they give `s`, and run together they give the result.
   */
  predicate PiecesOf(pieces: seq<string>, s: string, p: string)
    requires p != ""
  {
    && |pieces| >= 1
    && (forall i :: 0 <= i < |pieces| ==> !Contains(pieces[i], p))
    && Join(pieces, p) == s
    && Join(pieces, "") == RemoveAll(s, p)
  }

  /**
    What `s.replace(p, "")` does: `s` is a sequence of pieces that do not
    contain `p`, joined by `p`, and the result is those pieces run together.
    The pieces need not keep apart: their concatenation can contain `p` again.
   */
  lemma RemoveAllPieces(s: string, p: string)
    requires p != ""
    ensures exists pieces :: PiecesOf(pieces, s, p)
  {
    assert PiecesOf(Pieces(s, p), s, p);
  }

  /** The pieces of `RemoveAll(s, p)`: the stretches of `s` it keeps, between the occurrences it drops. */
  function Pieces(s: string, p: string): (pieces: seq<string>)
    requires p != ""
    ensures PiecesOf(pieces, s, p)
    decreases |s|
  {
    if |s| < |p| then
      [s]
    else if s[..|p|] == p then
      var rest := Pieces(s[|p|..], p);
      PiecesAfterDrop(s, p, rest);
      [""] + rest
    else
      var rest := Pieces(s[1..], p);
      PiecesAfterKeep(s, p, rest);
      [[s[0]] + rest[0]] + rest[1..]
  }

  lemma PiecesAfterDrop(s: string, p: string, rest: seq<string>)
    requires p != "" && StartsWith(s, p)
    requires PiecesOf(rest, s[|p|..], p)
    ensures PiecesOf([""] + rest, s, p)
  {
    var pieces := [""] + rest;
    assert pieces[1..] == rest;
    assert forall i :: 0 <= i < |pieces| ==> !Contains(pieces[i], p) by {
      assert forall i :: 1 <= i < |pieces| ==> pieces[i] == rest[i - 1];
      assert !Contains(pieces[0], p);
    }
    assert Join(pieces, p) == s by {
      JoinFirst(pieces, p);
      assert s == s[..|p|] + s[|p|..];
    }
    assert Join(pieces, "") == RemoveAll(s, p) by {
      JoinFirst(pieces, "");
      RemoveAllDrops(s, p);
    }
  }

  lemma PiecesAfterKeep(s: string, p: string, rest: seq<string>)
    requires p != "" && s != "" && !StartsWith(s, p)
    requires PiecesOf(rest, s[1..], p)
    ensures PiecesOf([[s[0]] + rest[0]] + rest[1..], s, p)
  {
    var first := [s[0]] + rest[0];
    var pieces := [first] + rest[1..];
    assert pieces[1..] == rest[1..];
    assert forall i :: 0 <= i < |pieces| ==> !Contains(pieces[i], p) by {
      JoinFirst(rest, p);
      FirstPieceFree(s, p, rest[0], s[1..]);
      assert forall i :: 1 <= i < |pieces| ==> pieces[i] == rest[i];
    }
    assert Join(pieces, p) == s by {
      JoinPrepend([s[0]], rest, p);
      assert s == [s[0]] + s[1..];
    }
    assert Join(pieces, "") == RemoveAll(s, p) by {
      JoinPrepend([s[0]], rest, "");
      RemoveAllKeeps(s, p);
    }
  }

  /** Gluing `c` to the front of the first part glues it to the front of the join. */
  lemma JoinPrepend(c: string, rest: seq<string>, sep: string)
    requires |rest| >= 1
    ensures Join([c + rest[0]] + rest[1..], sep) == c + Join(rest, sep)
  {
    var pieces := [c + rest[0]] + rest[1..];
    assert pieces[1..] == rest[1..];
    JoinFirst(pieces, sep);
    JoinFirst(rest, sep);
    var tail := if |rest| == 1 then "" else sep + Join(rest[1..], sep);
    assert (c + rest[0]) + tail == c + (rest[0] + tail);
  }

  /** A kept first character cannot start an occurrence of `p` inside the piece it opens. */
  lemma FirstPieceFree(s: string, p: string, x: string, tail: string)
    requires p != "" && s != "" && !StartsWith(s, p)
    requires s == [s[0]] + tail && |x| <= |tail| && tail[..|x|] == x
    requires !Contains(x, p)
    ensures !Contains([s[0]] + x, p)
  {
    var y := [s[0]] + x;
    assert y[1..] == x;
    assert y == s[..|y|];
  }

  /** `p` is non-empty and its first character does not occur again in it, so two occurrences of `p` never overlap. */
  predicate FirstCharUnique(p: string)
  {
    p != "" && forall o :: 0 < o < |p| ==> p[o] != p[0]
  }

  /** `s.find(p)`, or `len(s)` when `p` does not occur: where the first occurrence of `p` starts. */
  function FirstOccurrence(s: string, p: string): (r: nat)
    requires p != ""
    ensures r <= |s|
    decreases |s|
  {
    if |s| < |p| then |s|
    else if s[..|p|] == p then 0
    else 1 + FirstOccurrence(s[1..], p)
  }

  /**
    A `p`-free piece followed by nothing or by `p` ends exactly where the
    first occurrence of `p` starts, because occurrences of `p` cannot overlap.
   */
  lemma {:induction false} PieceEndsAtFirst(x: string, tx: string, p: string)
    requires FirstCharUnique(p) && !Contains(x, p)
    requires tx == "" || StartsWith(tx, p)
    ensures FirstOccurrence(x + tx, p) == |x|
    decreases |x|
  {
    var s := x + tx;
    if x == "" {
      assert s == tx;
    } else if |s| >= |p| {
      assert s[..|p|] != p by {
        if |p| <= |x| {
          assert s[..|p|] == x[..|p|];
        } else {
          assert |tx| > 0;
          assert s[|x|] == p[0] by {
            assert s[|x|..] == tx && tx[..|p|] == p;
          }
          assert s[..|p|][|x|] != p[|x|];
        }
      }
      assert s[1..] == x[1..] + tx;
      PieceEndsAtFirst(x[1..], tx, p);
    }
  }

  /** Splitting at the first occurrence of `p` is forced: the first pieces, and what follows them, agree. */
  lemma FirstPieceForced(x: string, y: string, tx: string, ty: string, p: string)
    requires FirstCharUnique(p) && !Contains(x, p) && !Contains(y, p)
    requires x + tx == y + ty
    requires tx == "" || StartsWith(tx, p)
    requires ty == "" || StartsWith(ty, p)
    ensures x == y && tx == ty
  {
    PieceEndsAtFirst(x, tx, p);
    PieceEndsAtFirst(y, ty, p);
    var s := x + tx;
    assert s[..|x|] == x && s[..|y|] == y;
    assert s[|x|..] == tx && s[|y|..] == ty;
  }

  /**
    When occurrences of `p` cannot overlap, a string has only one way of
    being `p`-free pieces joined by `p`.
   */
  lemma {:induction false} PiecesUnique(a: seq<string>, b: seq<string>, p: string)
    requires FirstCharUnique(p) && |a| >= 1 && |b| >= 1
    requires forall i :: 0 <= i < |a| ==> !Contains(a[i], p)
    requires forall i :: 0 <= i < |b| ==> !Contains(b[i], p)
    requires Join(a, p) == Join(b, p)
    ensures a == b
    decreases |a|
  {
    JoinFirst(a, p);
    JoinFirst(b, p);
    var ta := if |a| == 1 then "" else p + Join(a[1..], p);
    var tb := if |b| == 1 then "" else p + Join(b[1..], p);
    assert ta == "" || StartsWith(ta, p) by {
      if |a| > 1 {
        assert ta[..|p|] == p;
      }
    }
    assert tb == "" || StartsWith(tb, p) by {
      if |b| > 1 {
        assert tb[..|p|] == p;
      }
    }
    assert a[0] + ta == b[0] + tb;
    FirstPieceForced(a[0], b[0], ta, tb, p);
    if |a| > 1 && |b| > 1 {
      assert Join(a[1..], p) == Join(b[1..], p) by {
        assert ta[|p|..] == Join(a[1..], p) && tb[|p|..] == Join(b[1..], p);
      }
      PiecesUnique(a[1..], b[1..], p);
      assert a == [a[0]] + a[1..] && b == [b[0]] + b[1..];
    } else {
      assert |a| == 1 && |b| == 1;
    }
  }

  /**
    When occurrences of `p` cannot overlap, `s.replace(p, "")` is fixed by
    any way of writing `s` as `p`-free pieces joined by `p`: it is those
    pieces run together.
   */
  lemma RemoveAllOfPieces(s: string, p: string, pieces: seq<string>)
    requires FirstCharUnique(p) && |pieces| >= 1
    requires forall i :: 0 <= i < |pieces| ==> !Contains(pieces[i], p)
    requires Join(pieces, p) == s
    ensures RemoveAll(s, p) == Join(pieces, "")
  {
    PiecesUnique(pieces, Pieces(s, p), p);
  }

  /** `sep.join(parts)`: the pieces in order, with `sep` between neighbours. */
  function Join(parts: seq<string>, sep: string): string
  {
    if |parts| == 0 then ""
    else if |parts| == 1 then parts[0]
    else parts[0] + sep + Join(parts[1..], sep)
  }

  /** A join starts with its first piece, followed by the separator when more pieces follow. */
  lemma JoinFirst(parts: seq<string>, sep: string)
    requires |parts| >= 1
    ensures Join(parts, sep) == parts[0] + (if |parts| == 1 then "" else sep + Join(parts[1..], sep))
    ensures |parts[0]| <= |Join(parts, sep)| && Join(parts, sep)[..|parts[0]|] == parts[0]
  {
    if |parts| > 1 {
      assert parts[0] + sep + Join(parts[1..], sep) == parts[0] + (sep + Join(parts[1..], sep));
    }
  }

  /**
    `s.split(sep)` for a one-character separator: never empty, no piece holds
    the separator, and joining the pieces gives `s` back.
   */
  function Split(s: string, sep: char): (parts: seq<string>)
    ensures |parts| >= 1
    ensures forall i :: 0 <= i < |parts| ==> sep !in parts[i]
    ensures Join(parts, [sep]) == s
    decreases |s|
  {
    if s == "" then [""]
    else
      var rest := Split(s[1..], sep);
      if s[0] == sep then
        assert Join([""] + rest, [sep]) == [sep] + Join(rest, [sep]);
        [""] + rest
      else
        var parts := [[s[0]] + rest[0]] + rest[1..];
        assert parts[1..] == rest[1..];
        assert Join(parts, [sep]) == [s[0]] + Join(rest, [sep]);
        parts
  }

  /** Number of occurrences of the character `c` in `s`. */
  function Count(s: string, c: char): nat
  {
    if s == "" then 0 else (if s[0] == c then 1 else 0) + Count(s[1..], c)
  }

  lemma {:induction false} CountConcat(a: string, b: string, c: char)
    ensures Count(a + b, c) == Count(a, c) + Count(b, c)
  {
    if a != "" {
      assert (a + b)[1..] == a[1..] + b;
      CountConcat(a[1..], b, c);
    } else {
      assert a + b == b;
    }
  }

  lemma {:induction false} CountAbsent(s: string, c: char)
    requires c !in s
    ensures Count(s, c) == 0
  {
    if s != "" {
      CountAbsent(s[1..], c);
    }
  }

  lemma {:induction false} JoinConcat(a: seq<string>, b: seq<string>, sep: string)
    requires |a| >= 1 && |b| >= 1
    ensures Join(a + b, sep) == Join(a, sep) + sep + Join(b, sep)
  {
    if |a| == 1 {
      assert (a + b)[1..] == b;
    } else {
      assert (a + b)[1..] == a[1..] + b;
      JoinConcat(a[1..], b, sep);
    }
  }

  /** Joining `n` separator-free pieces puts exactly `n - 1` separators in the result. */
  lemma {:induction false} CountJoin(parts: seq<string>, sep: char)
    requires |parts| >= 1
    requires forall i :: 0 <= i < |parts| ==> sep !in parts[i]
    ensures Count(Join(parts, [sep]), sep) == |parts| - 1
  {
    CountAbsent(parts[0], sep);
    if |parts| > 1 {
      CountJoin(parts[1..], sep);
      CountConcat(parts[0], [sep], sep);
      CountConcat(parts[0] + [sep], Join(parts[1..], [sep]), sep);
    }
  }

  /** `s.count(sep)` is one less than the number of pieces `s.split(sep)` yields. */
  lemma CountSplit(s: string, sep: char)
    ensures Count(s, sep) == |Split(s, sep)| - 1
  {
    CountJoin(Split(s, sep), sep);
  }

  lemma {:induction false} SplitWithoutSeparator(p: string, sep: char)
    requires sep !in p
    ensures Split(p, sep) == [p]
    decreases |p|
  {
    if p != "" {
      SplitWithoutSeparator(p[1..], sep);
      assert [p[0]] + p[1..] == p;
    }
  }

  lemma {:induction false} SplitAfterPiece(p: string, s: string, sep: char)
    requires sep !in p
    ensures Split(p + [sep] + s, sep) == [p] + Split(s, sep)
    decreases |p|
  {
    if p == "" {
      assert (p + [sep] + s)[1..] == s;
    } else {
      assert (p + [sep] + s)[1..] == p[1..] + [sep] + s;
      SplitAfterPiece(p[1..], s, sep);
      assert [p[0]] + p[1..] == p;
    }
  }

  /** The other half of the round trip: splitting a join gives the pieces back. */
  lemma {:induction false} SplitJoin(parts: seq<string>, sep: char)
    requires |parts| >= 1
    requires forall i :: 0 <= i < |parts| ==> sep !in parts[i]
    ensures Split(Join(parts, [sep]), sep) == parts
  {
    if |parts| == 1 {
      SplitWithoutSeparator(parts[0], sep);
    } else {
      SplitAfterPiece(parts[0], Join(parts[1..], [sep]), sep);
      SplitJoin(parts[1..], sep);
      assert [parts[0]] + parts[1..] == parts;
    }
  }

  predicate IsUpperAscii(c: char)
  {
    'A' <= c <= 'Z'
  }

  predicate IsLowerAscii(c: char)
  {
    'a' <= c <= 'z'
  }

  function LowerChar(c: char): char
  {
    if IsUpperAscii(c) then (c as int + 32) as char else c
  }

  function UpperChar(c: char): char
  {
    if IsLowerAscii(c) then (c as int - 32) as char else c
  }

  /** `s.lower()` restricted to ASCII letters: each upper-case letter becomes its lower-case partner, every other character is kept. */
  function Lower(s: string): (r: string)
    ensures |r| == |s|
    ensures forall i :: 0 <= i < |s| ==> !IsUpperAscii(r[i])
    ensures forall i :: 0 <= i < |s| ==> if IsUpperAscii(s[i]) then r[i] as int == s[i] as int + 32 else r[i] == s[i]
  {
    seq(|s|, i requires 0 <= i < |s| => LowerChar(s[i]))
  }

  /** `s.capitalize()` restricted to ASCII letters: first letter upper case, the rest lower case. */
  function Capitalize(s: string): (r: string)
    ensures |r| == |s|
    ensures r == "" || !IsLowerAscii(r[0])
    ensures forall i :: 1 <= i < |s| ==> !IsUpperAscii(r[i])
    ensures Lower(r) == Lower(s)
  {
    if s == "" then "" else [UpperChar(s[0])] + Lower(s[1..])
  }
}
