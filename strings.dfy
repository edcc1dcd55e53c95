/**
 * The Kotlin string functions the plugin relies on: `trim`, `isBlank`,
 * `split` on a single character, `joinToString`, `replace` of a character,
 * `startsWith`, `lastIndexOf` and `substringBeforeLast`.
 */
module Strings {

  /**
   * Kotlin's `Char.isWhitespace()` on the JVM: `Character.isWhitespace` or
   * `Character.isSpaceChar`, i.e. the control characters TAB..CR and FS..US
   * plus every Unicode space, line or paragraph separator.
   */
  predicate IsWhitespace(c: char)
  {
    var n := c as int;
    (9 <= n <= 13) || (28 <= n <= 32) || n == 0xA0 || n == 0x1680
    || (0x2000 <= n <= 0x200A) || n == 0x2028 || n == 0x2029
    || n == 0x202F || n == 0x205F || n == 0x3000
  }

  /** Kotlin's `isBlank()`: empty or whitespace only. */
  predicate IsBlank(s: string)
  {
    forall i :: 0 <= i < |s| ==> IsWhitespace(s[i])
  }

  function TrimStart(s: string): (r: string)
    ensures |r| <= |s| && r == s[|s| - |r|..]
    ensures r == [] || !IsWhitespace(r[0])
    ensures IsBlank(s[..|s| - |r|])
  {
    if |s| == 0 || !IsWhitespace(s[0]) then s
    else
      var r := TrimStart(s[1..]);
      assert s[..|s| - |r|] == [s[0]] + s[1..][..|s| - 1 - |r|];
      r
  }

  function TrimEnd(s: string): (r: string)
    ensures |r| <= |s| && r == s[..|r|]
    ensures r == [] || !IsWhitespace(r[|r| - 1])
    ensures IsBlank(s[|r|..])
  {
    if |s| == 0 || !IsWhitespace(s[|s| - 1]) then s else TrimEnd(s[..|s| - 1])
  }

  /** Kotlin's `trim()`: drops leading and trailing whitespace. */
  function Trim(s: string): (r: string)
  {
    TrimEnd(TrimStart(s))
  }

  /** `s.trim().isEmpty()` is the same test as `s.isBlank()`. */
  lemma TrimEmptyIffBlank(s: string)
    ensures Trim(s) == [] <==> IsBlank(s)
  {
    var t := TrimStart(s);
    if t == [] {
      assert s[..|s| - |t|] == s;
    } else {
      var r := TrimEnd(t);
      assert !IsWhitespace(t[0]);
      assert IsBlank(t[|r|..]);
      assert |r| > 0;
    }
  }

  /**
   * Kotlin's `split` on a one-character delimiter, without a limit: the
   * pieces between occurrences of `sep`, empty pieces included, so the
   * result always has one piece more than `s` has occurrences of `sep`.
   */
  function Split(s: string, sep: char): (parts: seq<string>)
    ensures |parts| >= 1
    decreases |s|
  {
    if |s| == 0 then [""]
    else
      var rest := Split(s[1..], sep);
      if s[0] == sep then [""] + rest
      else
        [[s[0]] + rest[0]] + rest[1..]
  }

  /** No piece of a split holds the delimiter. */
  lemma {:induction false} SplitPiecesFree(s: string, sep: char)
    ensures forall i :: 0 <= i < |Split(s, sep)| ==> sep !in Split(s, sep)[i]
    decreases |s|
  {
    if |s| > 0 {
      SplitPiecesFree(s[1..], sep);
      var rest := Split(s[1..], sep);
      if s[0] != sep {
        var parts := Split(s, sep);
        assert forall i :: 1 <= i < |parts| ==> parts[i] == rest[i];
        assert parts[0] == [s[0]] + rest[0];
      }
    }
  }

  /** `filter { it.isNotBlank() }`: the non-blank entries, in order. */
  function NonBlank(entries: seq<string>): (r: seq<string>)
    ensures forall i :: 0 <= i < |r| ==> !IsBlank(r[i])
    ensures (forall i :: 0 <= i < |entries| ==> !IsBlank(entries[i])) ==> r == entries
    ensures |r| <= |entries|
    ensures forall x :: x in r <==> x in entries && !IsBlank(x)
  {
    if entries == [] then []
    else (if IsBlank(entries[0]) then [] else [entries[0]]) + NonBlank(entries[1..])
  }

  /** Kotlin's `joinToString(sep)`. */
  function Join(parts: seq<string>, sep: string): string
  {
    if |parts| == 0 then ""
    else if |parts| == 1 then parts[0]
    else parts[0] + sep + Join(parts[1..], sep)
  }

  /** Joining one more part in front adds it and a separator. */
  lemma JoinCons(x: string, rest: seq<string>, sep: string)
    requires |rest| >= 1
    ensures Join([x] + rest, sep) == x + sep + Join(rest, sep)
  {
    assert ([x] + rest)[1..] == rest;
  }

  lemma JoinTwo(x: string, y: string, sep: string)
    ensures Join([x, y], sep) == x + sep + y
  {
    assert [x, y][1..] == [y];
  }

  lemma JoinThree(x: string, y: string, z: string, sep: string)
    ensures Join([x, y, z], sep) == x + sep + y + sep + z
  {
    JoinTwo(y, z, sep);
    JoinCons(x, [y, z], sep);
    assert [x] + [y, z] == [x, y, z];
    assert x + sep + (y + sep + z) == x + sep + y + sep + z;
  }

  lemma JoinFour(w: string, x: string, y: string, z: string, sep: string)
    ensures Join([w, x, y, z], sep) == w + sep + x + sep + y + sep + z
  {
    JoinThree(x, y, z, sep);
    JoinCons(w, [x, y, z], sep);
    assert [w] + [x, y, z] == [w, x, y, z];
    assert w + sep + (x + sep + y + sep + z) == w + sep + x + sep + y + sep + z;
  }

  /** Joining the pieces of a split with the delimiter gives back the string. */
  lemma {:induction false} JoinSplit(s: string, sep: char)
    ensures Join(Split(s, sep), [sep]) == s
    decreases |s|
  {
    if |s| > 0 {
      var rest := Split(s[1..], sep);
      JoinSplit(s[1..], sep);
      if s[0] == sep {
        assert Split(s, sep) == [""] + rest;
        assert s == [s[0]] + s[1..];
      } else {
        var parts := Split(s, sep);
        assert parts == [[s[0]] + rest[0]] + rest[1..];
        if |rest| == 1 {
          assert Join(rest, [sep]) == rest[0];
        } else {
          assert Join(rest, [sep]) == rest[0] + [sep] + Join(rest[1..], [sep]);
          assert parts[1..] == rest[1..];
        }
        assert s == [s[0]] + s[1..];
      }
    }
  }

  /** Joining one more piece appends the delimiter and the piece. */
  lemma {:induction false} JoinSnoc(parts: seq<string>, p: string, sep: string)
    ensures Join(parts + [p], sep) == if parts == [] then p else Join(parts, sep) + sep + p
    decreases |parts|
  {
    if |parts| == 1 {
      assert (parts + [p])[1..] == [p];
    } else if |parts| > 1 {
      assert (parts + [p])[1..] == parts[1..] + [p];
      JoinSnoc(parts[1..], p, sep);
    }
  }

  lemma {:induction false} SplitFree(s: string, sep: char)
    requires sep !in s
    ensures Split(s, sep) == [s]
    decreases |s|
  {
    if |s| > 0 {
      assert s[0] != sep;
      assert sep !in s[1..];
      SplitFree(s[1..], sep);
      assert s == [s[0]] + s[1..];
    }
  }

  lemma {:induction false} SplitAppend(a: string, sep: char, b: string)
    requires sep !in a
    ensures Split(a + [sep] + b, sep) == [a] + Split(b, sep)
    decreases |a|
  {
    if |a| == 0 {
      assert a + [sep] + b == [sep] + b;
      assert ([sep] + b)[1..] == b;
    } else {
      var s := a + [sep] + b;
      assert s[0] == a[0];
      assert s[1..] == a[1..] + [sep] + b;
      assert sep !in a[1..];
      SplitAppend(a[1..], sep, b);
      assert a[0] != sep;
      assert [a[0]] + a[1..] == a;
    }
  }

  /** Splitting a join gives back the pieces, when no piece holds the delimiter. */
  lemma {:induction false} SplitJoin(parts: seq<string>, sep: char)
    requires |parts| >= 1
    requires forall i :: 0 <= i < |parts| ==> sep !in parts[i]
    ensures Split(Join(parts, [sep]), sep) == parts
    decreases |parts|
  {
    if |parts| == 1 {
      SplitFree(parts[0], sep);
    } else {
      SplitJoin(parts[1..], sep);
      SplitAppend(parts[0], sep, Join(parts[1..], [sep]));
      assert parts == [parts[0]] + parts[1..];
    }
  }

  /** One character in front of a text: a delimiter starts a new piece, any other character joins the first piece. */
  lemma SplitCons(c: char, t: string, sep: char)
    ensures Split([c] + t, sep)
         == if c == sep then [""] + Split(t, sep) else [[c] + Split(t, sep)[0]] + Split(t, sep)[1..]
  {
    assert ([c] + t)[1..] == t;
  }

  lemma ConsAppend<T>(h: T, a: seq<T>, b: seq<T>)
    ensures [h] + (a + b) == ([h] + a) + b
  {
  }

  lemma HeadTailAppend<T>(a: seq<T>, b: seq<T>)
    requires |a| >= 1
    ensures (a + b)[0] == a[0] && (a + b)[1..] == a[1..] + b
  {
  }

  /** A character in front of both sides of a split at one delimiter stays with the left side. */
  lemma SplitConcatCons(c: char, x: string, sep: char, y: string)
    requires Split(x + [sep] + y, sep) == Split(x, sep) + Split(y, sep)
    ensures Split([c] + x + [sep] + y, sep) == Split([c] + x, sep) + Split(y, sep)
  {
    var t := x + [sep] + y;
    assert [c] + x + [sep] + y == [c] + t;
    SplitCons(c, t, sep);
    SplitCons(c, x, sep);
    var xs := Split(x, sep);
    var ys := Split(y, sep);
    if c == sep {
      ConsAppend("", xs, ys);
    } else {
      HeadTailAppend(xs, ys);
      ConsAppend([c] + xs[0], xs[1..], ys);
    }
  }

  /** Splitting at one delimiter splits the two sides independently. */
  lemma {:induction false} SplitConcat(x: string, sep: char, y: string)
    ensures Split(x + [sep] + y, sep) == Split(x, sep) + Split(y, sep)
    decreases |x|
  {
    if |x| == 0 {
      assert x + [sep] + y == [sep] + y;
      SplitCons(sep, y, sep);
    } else {
      var c, xt := x[0], x[1..];
      assert x == [c] + xt;
      SplitConcat(xt, sep, y);
      SplitConcatCons(c, xt, sep, y);
    }
  }

  /** Kotlin's `replace(old, new)` on characters. */
  function ReplaceChar(s: string, from: char, to: char): (r: string)
    ensures |r| == |s|
    ensures forall i :: 0 <= i < |s| ==> r[i] == if s[i] == from then to else s[i]
  {
    if |s| == 0 then "" else [if s[0] == from then to else s[0]] + ReplaceChar(s[1..], from, to)
  }

  /**
   * Replacing one delimiter by another that the string does not hold
   * splits the same way.
   */
  lemma {:induction false} SplitReplace(s: string, from: char, to: char)
    requires to !in s
    ensures Split(ReplaceChar(s, from, to), to) == Split(s, from)
    decreases |s|
  {
    if |s| > 0 {
      var r := ReplaceChar(s, from, to);
      assert r[1..] == ReplaceChar(s[1..], from, to);
      assert to !in s[1..];
      SplitReplace(s[1..], from, to);
    }
  }

  predicate StartsWith(s: string, prefix: string)
  {
    |prefix| <= |s| && s[..|prefix|] == prefix
  }

  predicate EndsWith(s: string, suffix: string)
  {
    |suffix| <= |s| && s[|s| - |suffix|..] == suffix
  }

  /** Whether `pattern` occurs in `s` at position `i`. */
  predicate OccursAt(s: string, pattern: string, i: int)
  {
    0 <= i && i + |pattern| <= |s| && s[i..i + |pattern|] == pattern
  }

  /** Kotlin's `lastIndexOf(pattern)`: the last position where it occurs, or -1. */
  function LastIndexOf(s: string, pattern: string): (r: int)
    ensures -1 <= r <= |s|
    ensures r == -1 || OccursAt(s, pattern, r)
    ensures forall j :: r < j <= |s| - |pattern| ==> !OccursAt(s, pattern, j)
  {
    LastIndexOfFrom(s, pattern, |s| - |pattern|)
  }

  function LastIndexOfFrom(s: string, pattern: string, i: int): (r: int)
    requires i <= |s| - |pattern|
    ensures r == -1 || (0 <= r <= i && OccursAt(s, pattern, r))
    ensures forall j :: r < j <= i ==> !OccursAt(s, pattern, j)
    decreases i + 1
  {
    if i < 0 then -1
    else if s[i..i + |pattern|] == pattern then i
    else LastIndexOfFrom(s, pattern, i - 1)
  }

  /** Kotlin's `indexOf(c)`: the first position of `c`, or -1. */
  function IndexOfChar(s: string, c: char): (r: int)
    ensures -1 <= r < |s|
    ensures r == -1 <==> c !in s
    ensures r >= 0 ==> s[r] == c && c !in s[..r]
  {
    if |s| == 0 then -1
    else if s[0] == c then 0
    else
      var k := IndexOfChar(s[1..], c);
      assert s == [s[0]] + s[1..];
      if k == -1 then -1
      else
        assert s[..k + 1] == [s[0]] + s[1..][..k];
        k + 1
  }

  /**
   * Kotlin's `substringBeforeLast(c)`: the text before the last `c`, or the
   * whole string when `c` does not occur.
   */
  function SubstringBeforeLast(s: string, c: char): (r: string)
    ensures c in s ==> r + [c] + SubstringAfterLast(s, c) == s
    ensures c !in s ==> r == s
  {
    if c !in s then s
    else if s[|s| - 1] == c then s[..|s| - 1]
    else
      assert s == s[..|s| - 1] + [s[|s| - 1]];
      SubstringBeforeLast(s[..|s| - 1], c)
  }

  /** The text after the last `c`, which holds no `c`; the whole string when `c` does not occur. */
  function SubstringAfterLast(s: string, c: char): (r: string)
    ensures c !in r
    ensures c !in s ==> r == s
  {
    if c !in s then s
    else if s[|s| - 1] == c then ""
    else
      assert s == s[..|s| - 1] + [s[|s| - 1]];
      SubstringAfterLast(s[..|s| - 1], c) + [s[|s| - 1]]
  }

  lemma AppendAssoc<T>(a: seq<T>, b: seq<T>, c: seq<T>)
    ensures a + (b + c) == (a + b) + c
  {
  }

  lemma AbsentFromPrefix<T>(x: T, t: seq<T>, k: nat)
    requires k <= |t| && x !in t
    ensures x !in t[..k]
  {
    assert forall j :: 0 <= j < k ==> t[..k][j] == t[j];
  }

  /** A character other than `c` appended stays after the last `c`. */
  lemma SubstringAfterLastSnoc(w: string, e: char, c: char)
    requires e != c
    ensures SubstringAfterLast(w + [e], c) == SubstringAfterLast(w, c) + [e]
  {
    var u := w + [e];
    assert u[..|u| - 1] == w && u[|u| - 1] == e;
    assert c in u <==> c in w;
  }

  /** Text free of `c` appended to a string stays after its last `c`. */
  lemma {:induction false} SubstringAfterLastAppend(s: string, c: char, t: string)
    requires c !in t
    ensures SubstringAfterLast(s + t, c) == SubstringAfterLast(s, c) + t
    decreases |t|
  {
    if t == [] {
      assert s + t == s;
      assert SubstringAfterLast(s, c) + t == SubstringAfterLast(s, c);
    } else {
      var t', e := t[..|t| - 1], t[|t| - 1];
      assert t == t' + [e];
      AbsentFromPrefix(c, t, |t| - 1);
      SubstringAfterLastAppend(s, c, t');
      AppendAssoc(s, t', [e]);
      SubstringAfterLastSnoc(s + t', e, c);
      AppendAssoc(SubstringAfterLast(s, c), t', [e]);
    }
  }

  /** A character other than `c` appended to a text holding `c` leaves the text before its last `c` alone. */
  lemma SubstringBeforeLastSnoc(w: string, e: char, c: char)
    requires e != c && c in w
    ensures SubstringBeforeLast(w + [e], c) == SubstringBeforeLast(w, c)
  {
    var u := w + [e];
    assert u[..|u| - 1] == w && u[|u| - 1] == e;
    assert c in u;
  }

  /** Text before the last `c` of `p + [c] + v`, when `v` holds no `c`, is `p`. */
  lemma {:induction false} SubstringBeforeLastSplit(p: string, c: char, v: string)
    requires c !in v
    ensures SubstringBeforeLast(p + [c] + v, c) == p
    decreases |v|
  {
    var w := p + [c];
    assert w[|p|] == c;
    if v == [] {
      assert p + [c] + v == w && w[..|w| - 1] == p;
    } else {
      var v', e := v[..|v| - 1], v[|v| - 1];
      assert v == v' + [e];
      AbsentFromPrefix(c, v, |v| - 1);
      SubstringBeforeLastSplit(p, c, v');
      AppendAssoc(w, v', [e]);
      assert (w + v')[|p|] == c;
      SubstringBeforeLastSnoc(w + v', e, c);
    }
  }
}
