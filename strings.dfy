/**
 * The library string operations the core relies on: splitting at a separator (JavaScript's
 * `String.prototype.split` and Java's `String.split`), joining, ASCII case mapping and Java's `trim`.
 */
module Strings {

  /** `sep` occurs in `s` starting at position `i`. */
  predicate OccursAt(s: string, sep: string, i: int)
  {
    0 <= i && i + |sep| <= |s| && s[i..i + |sep|] == sep
  }

  predicate Contains(s: string, sep: string)
  {
    exists i | 0 <= i <= |s| :: OccursAt(s, sep, i)
  }

  /**
   * Splits `s` at the leftmost non-overlapping occurrences of `sep`, keeping empty pieces
   * (JavaScript's `split` with a string separator).
   */
  function Split(s: string, sep: string): (parts: seq<string>)
    requires |sep| > 0
    ensures |parts| >= 1
    decreases |s|
  {
    if |s| < |sep| then [s]
    else if s[..|sep|] == sep then [""] + Split(s[|sep|..], sep)
    else
      var rest := Split(s[1..], sep);
      [[s[0]] + rest[0]] + rest[1..]
  }

  /** Concatenates `parts` with `sep` between neighbours. */
  function Join(parts: seq<string>, sep: string): string
  {
    if |parts| == 0 then ""
    else if |parts| == 1 then parts[0]
    else parts[0] + sep + Join(parts[1..], sep)
  }

  /** Number of leftmost non-overlapping occurrences of `sep` in `s`, scanning left to right. */
  function Occurrences(s: string, sep: string): nat
    requires |sep| > 0
    decreases |s|
  {
    if |s| < |sep| then 0
    else if s[..|sep|] == sep then 1 + Occurrences(s[|sep|..], sep)
    else Occurrences(s[1..], sep)
  }

  /** Splitting then joining with the same separator gives the string back. */
  lemma {:induction false} JoinSplit(s: string, sep: string)
    requires |sep| > 0
    ensures Join(Split(s, sep), sep) == s
    decreases |s|
  {
    if |s| < |sep| {
    } else if s[..|sep|] == sep {
      var rest := Split(s[|sep|..], sep);
      JoinSplit(s[|sep|..], sep);
      assert Split(s, sep) == [""] + rest;
      assert ([""] + rest)[1..] == rest;
      JoinCons([""] + rest, sep);
      assert s == sep + s[|sep|..];
    } else {
      var rest := Split(s[1..], sep);
      assert Split(s, sep) == [[s[0]] + rest[0]] + rest[1..];
      JoinSplit(s[1..], sep);
      JoinWiden([s[0]], rest, sep);
      assert s == [s[0]] + s[1..];
    }
  }

  /** Prefixing the first piece prefixes the join. */
  lemma JoinWiden(p: string, parts: seq<string>, sep: string)
    requires |parts| >= 1
    ensures Join([p + parts[0]] + parts[1..], sep) == p + Join(parts, sep)
  {
    var wide := [p + parts[0]] + parts[1..];
    assert wide[1..] == parts[1..];
    if |parts| > 1 {
      JoinCons(parts, sep);
      assert Join(wide, sep) == (p + parts[0]) + sep + Join(parts[1..], sep);
    }
  }

  /** The first piece of a join, followed by the separator, opens the join. */
  lemma JoinCons(parts: seq<string>, sep: string)
    requires |parts| >= 2
    ensures Join(parts, sep) == parts[0] + sep + Join(parts[1..], sep)
  {
  }

  /** The first piece is a prefix of the join. */
  lemma {:induction false} JoinHead(parts: seq<string>, sep: string)
    requires |parts| >= 1
    ensures parts[0] <= Join(parts, sep)
  {
    if |parts| > 1 {
      assert Join(parts, sep) == parts[0] + (sep + Join(parts[1..], sep));
    }
  }

  /** There is one more piece than there are separator occurrences. */
  lemma {:induction false} SplitCount(s: string, sep: string)
    requires |sep| > 0
    ensures |Split(s, sep)| == Occurrences(s, sep) + 1
    decreases |s|
  {
    if |s| < |sep| {
    } else if s[..|sep|] == sep {
      SplitCount(s[|sep|..], sep);
    } else {
      SplitCount(s[1..], sep);
    }
  }

  /** No piece contains the separator. */
  lemma {:induction false} SplitPiecesAvoidSeparator(s: string, sep: string)
    requires |sep| > 0
    ensures forall k :: 0 <= k < |Split(s, sep)| ==> !Contains(Split(s, sep)[k], sep)
    decreases |s|
  {
    var parts := Split(s, sep);
    if |s| < |sep| {
      forall i | OccursAt(s, sep, i) ensures false {
      }
    } else if s[..|sep|] == sep {
      SplitPiecesAvoidSeparator(s[|sep|..], sep);
      assert !Contains("", sep) by {
        forall i | OccursAt("", sep, i) ensures false {
        }
      }
      forall k | 0 <= k < |parts| ensures !Contains(parts[k], sep) {
        if k > 0 {
          assert parts[k] == Split(s[|sep|..], sep)[k - 1];
        }
      }
    } else {
      var rest := Split(s[1..], sep);
      SplitPiecesAvoidSeparator(s[1..], sep);
      JoinSplit(s[1..], sep);
      JoinHead(rest, sep);
      var first := [s[0]] + rest[0];
      assert first <= s by {
        assert s == [s[0]] + s[1..];
      }
      ConsAvoids(s[0], rest[0], sep, s);
      forall k | 0 <= k < |parts| ensures !Contains(parts[k], sep) {
        if k > 0 {
          assert parts[k] == rest[k];
        }
      }
    }
  }

  /** A character put in front of a piece free of `sep` creates no occurrence when the whole does not start with `sep`. */
  lemma ConsAvoids(c: char, w: string, sep: string, s: string)
    requires |sep| > 0 && |sep| <= |s| && s[..|sep|] != sep
    requires !Contains(w, sep) && [c] + w <= s
    ensures !Contains([c] + w, sep)
  {
    var first := [c] + w;
    assert |first| >= |sep| ==> s[..|sep|] == first[..|sep|];
    forall i | OccursAt(first, sep, i) ensures false {
      if i > 0 {
        assert w[i - 1..i - 1 + |sep|] == first[i..i + |sep|];
        assert OccursAt(w, sep, i - 1);
      }
    }
  }

  /** Every character of every piece is a character of `s`. */
  lemma {:induction false} SplitPieceChars(s: string, sep: string)
    requires |sep| > 0
    ensures forall k, ch :: 0 <= k < |Split(s, sep)| && ch in Split(s, sep)[k] ==> ch in s
    decreases |s|
  {
    if |s| < |sep| {
    } else if s[..|sep|] == sep {
      SplitPieceChars(s[|sep|..], sep);
      forall k, ch | 0 <= k < |Split(s, sep)| && ch in Split(s, sep)[k] ensures ch in s {
        assert Split(s, sep)[k] == Split(s[|sep|..], sep)[k - 1];
        assert ch in s[|sep|..];
      }
    } else {
      var rest := Split(s[1..], sep);
      SplitPieceChars(s[1..], sep);
      forall k, ch | 0 <= k < |Split(s, sep)| && ch in Split(s, sep)[k] ensures ch in s {
        if k > 0 {
          assert Split(s, sep)[k] == rest[k];
          assert ch in s[1..];
        } else if ch != s[0] {
          assert ch in rest[0];
          assert ch in s[1..];
        }
      }
    }
  }

  /** Splitting at a one-character separator moves a separator-free prefix into the first piece. */
  lemma {:induction false} SplitPrefix(w: string, rest: string, c: char)
    requires c !in w
    ensures Split(w + rest, [c]) == [w + Split(rest, [c])[0]] + Split(rest, [c])[1..]
    decreases |w|
  {
    if |w| > 0 {
      var t := w + rest;
      assert t[..1] != [c] by { assert t[0] == w[0]; }
      assert t[1..] == w[1..] + rest;
      SplitPrefix(w[1..], rest, c);
      assert [t[0]] + (w[1..] + Split(rest, [c])[0]) == w + Split(rest, [c])[0];
    } else {
      var parts := Split(rest, [c]);
      assert w + rest == rest;
      assert w + parts[0] == parts[0];
      assert parts == [parts[0]] + parts[1..];
    }
  }

  /** Joining pieces free of a one-character separator and splitting again returns the pieces. */
  lemma {:induction false} SplitJoin(ws: seq<string>, c: char)
    requires |ws| >= 1
    requires forall k :: 0 <= k < |ws| ==> c !in ws[k]
    ensures Split(Join(ws, [c]), [c]) == ws
  {
    if |ws| == 1 {
      SplitPrefix(ws[0], "", c);
      assert ws[0] + "" == ws[0];
    } else {
      var tail := Join(ws[1..], [c]);
      SplitJoin(ws[1..], c);
      assert Join(ws, [c]) == ws[0] + ([c] + tail);
      SplitPrefix(ws[0], [c] + tail, c);
      assert ([c] + tail)[..1] == [c];
      assert ([c] + tail)[1..] == tail;
      assert ws[0] + "" == ws[0];
      assert ws == [ws[0]] + ws[1..];
    }
  }

  /** Appending one piece to a join of at least one piece. */
  lemma {:induction false} JoinSnoc(parts: seq<string>, x: string, sep: string)
    requires |parts| >= 1
    ensures Join(parts + [x], sep) == Join(parts, sep) + sep + x
  {
    if |parts| == 1 {
      assert (parts + [x])[1..] == [x];
    } else {
      assert (parts + [x])[1..] == parts[1..] + [x];
      JoinSnoc(parts[1..], x, sep);
    }
  }

  /** Drops the empty pieces at the end, as Java's `split` does when no limit is given. */
  function DropTrailingEmpty(parts: seq<string>): (r: seq<string>)
    ensures r <= parts
    ensures |r| > 0 ==> r[|r| - 1] != ""
    ensures forall k :: |r| <= k < |parts| ==> parts[k] == ""
  {
    if |parts| > 0 && parts[|parts| - 1] == "" then DropTrailingEmpty(parts[..|parts| - 1])
    else parts
  }

  /**
   * Java's `String.split` with a one-character separator and no limit: a string without the
   * separator is returned whole (even when empty); otherwise the pieces are those of `Split`
   * with the trailing empty ones removed.
   */
  function JavaSplit(s: string, c: char): seq<string>
  {
    if c !in s then [s] else DropTrailingEmpty(Split(s, [c]))
  }

  /** A string in which the one-character string `[c]` does not occur does not hold `c`. */
  lemma NoOccurrenceNoChar(p: string, c: char)
    requires !Contains(p, [c])
    ensures c !in p
  {
    if c in p {
      var i :| 0 <= i < |p| && p[i] == c;
      assert OccursAt(p, [c], i);
    }
  }

  /** No piece of a Java split contains the separator, and all its characters come from `s`. */
  lemma JavaSplitPieces(s: string, c: char)
    ensures forall k :: 0 <= k < |JavaSplit(s, c)| ==> c !in JavaSplit(s, c)[k]
    ensures forall k, ch :: 0 <= k < |JavaSplit(s, c)| && ch in JavaSplit(s, c)[k] ==> ch in s
  {
    if c in s {
      var parts := Split(s, [c]);
      var pieces := JavaSplit(s, c);
      assert pieces == DropTrailingEmpty(parts);
      SplitPiecesAvoidSeparator(s, [c]);
      SplitPieceChars(s, [c]);
      forall k | 0 <= k < |pieces| ensures c !in pieces[k] {
        assert pieces[k] == parts[k];
        NoOccurrenceNoChar(parts[k], c);
      }
      forall k, ch | 0 <= k < |pieces| && ch in pieces[k] ensures ch in s {
        assert pieces[k] == parts[k];
      }
    }
  }

  function LowerChar(ch: char): char
  {
    if 'A' <= ch <= 'Z' then (ch as int + 32) as char else ch
  }

  function UpperChar(ch: char): char
  {
    if 'a' <= ch <= 'z' then (ch as int - 32) as char else ch
  }

  /** `toLowerCase` on ASCII letters; every other character is kept. */
  function ToLower(s: string): string
  {
    seq(|s|, i requires 0 <= i < |s| => LowerChar(s[i]))
  }

  /** `String.trim` removes every character up to U+0020 at either end. */
  function TrimStart(s: string): (r: string)
    ensures |r| <= |s| && r == s[|s| - |r|..]
    ensures |r| > 0 ==> r[0] > ' '
  {
    if |s| > 0 && s[0] <= ' ' then TrimStart(s[1..]) else s
  }

  function TrimEnd(s: string): (r: string)
    ensures |r| <= |s| && r == s[..|r|]
    ensures |r| > 0 ==> r[|r| - 1] > ' '
  {
    if |s| > 0 && s[|s| - 1] <= ' ' then TrimEnd(s[..|s| - 1]) else s
  }

  function Trim(s: string): (r: string)
    ensures |r| > 0 ==> r[0] > ' ' && r[|r| - 1] > ' '
    ensures forall ch :: ch in r ==> ch in s
  {
    var t := TrimStart(s);
    var r := TrimEnd(t);
    assert forall ch :: ch in r ==> ch in t;
    r
  }

  /** Trimming a string that starts and ends with visible characters, plus one trailing space, drops just that space. */
  lemma TrimPadded(j: string)
    requires |j| > 0 && j[0] > ' ' && j[|j| - 1] > ' '
    ensures Trim(j + " ") == j
  {
    var t := j + " ";
    assert TrimStart(t) == t;
    assert t[..|t| - 1] == j;
    assert TrimEnd(t) == TrimEnd(j);
    assert TrimEnd(j) == j;
  }
}
