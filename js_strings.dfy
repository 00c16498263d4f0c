/** The JavaScript string built-ins that the client-tag derivation is written with:
    `indexOf`, `substr`, `split` on a one-character separator, indexing a string with
    `value[i]`, and `join`.  A Dafny `char` is a Unicode scalar value.  For the
    percent-encoded ASCII pathname that `new URL` produces, this matches JavaScript's
    UTF-16 code units; beyond the Basic Multilingual Plane, `length` and `value[0]`
    would differ. */
module JsStrings {

  /** What an array element handed to `join` can be here: a string, or the `undefined`
      that indexing a string past its end produces. */
  datatype Piece = Text(text: string) | Undefined

  /** `pat` occurs in `s` starting at index `k`. */
  predicate OccursAt(s: string, pat: string, k: int)
  {
    0 <= k && k + |pat| <= |s| && s[k..k + |pat|] == pat
  }

  /** `i` is the index of the first occurrence of `pat` in `s`. */
  predicate IsFirstOccurrence(s: string, pat: string, i: int)
  {
    OccursAt(s, pat, i) && forall k :: 0 <= k < i ==> !OccursAt(s, pat, k)
  }

  /** The scan behind `indexOf`, started at index `from`. */
  function IndexFrom(s: string, pat: string, from: nat): (r: int)
    ensures r == -1 || (from <= r && OccursAt(s, pat, r))
    ensures forall k :: from <= k && (r == -1 || k < r) ==> !OccursAt(s, pat, k)
    decreases |s| - from
  {
    if from + |pat| > |s| then -1
    else if OccursAt(s, pat, from) then from
    else IndexFrom(s, pat, from + 1)
  }

  /** `s.indexOf(pat)`: the index of the first occurrence of `pat`, or -1 when there is none. */
  function IndexOf(s: string, pat: string): (r: int)
    ensures r >= -1
    ensures r == -1 <==> forall k :: !OccursAt(s, pat, k)
    ensures r != -1 ==> IsFirstOccurrence(s, pat, r)
    ensures forall i :: IsFirstOccurrence(s, pat, i) ==> r == i
  {
    IndexFrom(s, pat, 0)
  }

  /** `s.substr(start)` for a start that is not negative: everything from `start` on,
      and the empty string once `start` is at or past the end. */
  function SubstrFrom(s: string, start: nat): (r: string)
    ensures start <= |s| ==> |r| == |s| - start && s[..start] + r == s
    ensures start >= |s| ==> r == ""
  {
    if start <= |s| then s[start..] else ""
  }

  /** `s.substr(start, length)` for arguments that are not negative: at most `length`
      characters from `start` on. */
  function Substr(s: string, start: nat, length: nat): (r: string)
    ensures |r| <= length
    ensures start <= |s| ==> |r| == Min(length, |s| - start) && r == s[start..start + |r|]
    ensures start >= |s| ==> r == ""
  {
    if start >= |s| then ""
    else if start + length <= |s| then s[start..start + length]
    else s[start..]
  }

  function Min(a: int, b: int): int
  {
    if a <= b then a else b
  }

  /** `value[i]`: the one-character string at index `i`, or `undefined` past the end. */
  function CharAt(value: string, i: nat): (r: Piece)
    ensures r == Undefined <==> i >= |value|
    ensures r != Undefined ==> r.text == value[i..i + 1]
  {
    if i < |value| then Text([value[i]]) else Undefined
  }

  /** How `join` renders one element: `undefined` becomes the empty string. */
  function Render(p: Piece): (r: string)
    ensures p == Undefined ==> r == ""
    ensures p.Text? ==> r == p.text
  {
    match p
    case Text(t) => t
    case Undefined => ""
  }

  /** `s` begins with `prefix`. */
  predicate StartsWith(s: string, prefix: string)
  {
    |prefix| <= |s| && s[..|prefix|] == prefix
  }

  /** `s` ends with `suffix`. */
  predicate EndsWith(s: string, suffix: string)
  {
    |suffix| <= |s| && s[|s| - |suffix|..] == suffix
  }

  /** The number of occurrences of `c` in `s`. */
  function Count(s: string, c: char): nat
  {
    if |s| == 0 then 0 else (if s[0] == c then 1 else 0) + Count(s[1..], c)
  }

  /** `s.split(sep)` for a one-character separator: the maximal runs between separators,
      one more of them than there are separators, the empty string giving `[""]`. */
  function Split(s: string, sep: char): (parts: seq<string>)
    ensures |parts| == Count(s, sep) + 1
    ensures forall i :: 0 <= i < |parts| ==> sep !in parts[i]
    decreases |s|
  {
    if |s| == 0 then [""]
    else
      var tail := Split(s[1..], sep);
      if s[0] == sep then [""] + tail
      else [[s[0]] + tail[0]] + tail[1..]
  }

  /** `pieces.join(sep)`: the rendered elements with one separator between neighbours. */
  function Join(pieces: seq<Piece>, sep: char): (r: string)
    ensures |pieces| == 0 ==> r == ""
    ensures |r| >= |pieces| - 1
    ensures |pieces| >= 1 ==> StartsWith(r, Render(pieces[0]))
    decreases |pieces|
  {
    if |pieces| == 0 then ""
    else if |pieces| == 1 then Render(pieces[0])
    else Render(pieces[0]) + [sep] + Join(pieces[1..], sep)
  }

  /** An array of strings seen as `join` elements. */
  function Texts(parts: seq<string>): seq<Piece>
  {
    seq(|parts|, i requires 0 <= i < |parts| => Text(parts[i]))
  }

  lemma JoinCons(p: Piece, ps: seq<Piece>, sep: char)
    requires |ps| >= 1
    ensures Join([p] + ps, sep) == Render(p) + [sep] + Join(ps, sep)
  {
    assert ([p] + ps)[1..] == ps;
  }

  /** Splitting with no separator in the leading text `t` glues `t` onto the first part. */
  lemma {:induction false} SplitPrepend(t: string, rest: string, sep: char)
    requires sep !in t
    ensures var q := Split(rest, sep);
            Split(t + rest, sep) == [t + q[0]] + q[1..]
    decreases |t|
  {
    var q := Split(rest, sep);
    if |t| == 0 {
      assert t + rest == rest;
      assert t + q[0] == q[0];
      assert [t + q[0]] + q[1..] == q;
    } else {
      var s := t + rest;
      assert s[0] == t[0] && s[1..] == t[1..] + rest;
      SplitPrepend(t[1..], rest, sep);
      assert [t[0]] + (t[1..] + q[0]) == t + q[0];
    }
  }

  lemma TextsCons(p: string, ps: seq<string>)
    ensures Texts([p] + ps) == [Text(p)] + Texts(ps)
  {
  }

  /** Gluing a character onto the first part puts it in front of the join. */
  lemma PrependToFirst(c: char, parts: seq<string>, sep: char)
    requires |parts| >= 1
    ensures Join(Texts([[c] + parts[0]] + parts[1..]), sep) == [c] + Join(Texts(parts), sep)
  {
    TextsCons([c] + parts[0], parts[1..]);
    assert parts == [parts[0]] + parts[1..];
    TextsCons(parts[0], parts[1..]);
    if |parts| > 1 {
      JoinCons(Text([c] + parts[0]), Texts(parts[1..]), sep);
      JoinCons(Text(parts[0]), Texts(parts[1..]), sep);
    }
  }

  /** `join` undoes `split`: joining the parts with the separator gives back `s`. */
  lemma {:induction false} SplitThenJoin(s: string, sep: char)
    ensures Join(Texts(Split(s, sep)), sep) == s
    decreases |s|
  {
    if |s| > 0 {
      var tail := Split(s[1..], sep);
      SplitThenJoin(s[1..], sep);
      assert s == [s[0]] + s[1..];
      if s[0] == sep {
        TextsCons("", tail);
        JoinCons(Text(""), Texts(tail), sep);
      } else {
        PrependToFirst(s[0], tail, sep);
      }
    }
  }

  /** No character absent from `s` turns up in a part of its split. */
  lemma {:induction false} SplitKeepsAbsent(s: string, sep: char, c: char)
    requires c !in s
    ensures forall i :: 0 <= i < |Split(s, sep)| ==> c !in Split(s, sep)[i]
    decreases |s|
  {
    if |s| > 0 {
      assert s == [s[0]] + s[1..];
      SplitKeepsAbsent(s[1..], sep, c);
    }
  }

  /** A leading separator opens an empty first part. */
  lemma SplitAfterSeparator(u: string, sep: char)
    ensures Split([sep] + u, sep) == [""] + Split(u, sep)
  {
    assert ([sep] + u)[1..] == u;
  }

  /** A part free of the separator, then the separator, then `u`, splits into that part
      followed by the split of `u`. */
  lemma SplitAtFirstSeparator(t: string, u: string, sep: char)
    requires sep !in t
    ensures Split(t + [sep] + u, sep) == [t] + Split(u, sep)
  {
    var q := Split([sep] + u, sep);
    SplitAfterSeparator(u, sep);
    SplitPrepend(t, [sep] + u, sep);
    assert t + [sep] + u == t + ([sep] + u);
    assert q[0] == "" && q[1..] == Split(u, sep);
    assert t + "" == t;
  }

  /** `split` undoes `join`: parts free of the separator come back from their join. */
  lemma {:induction false} JoinThenSplit(parts: seq<string>, sep: char)
    requires |parts| >= 1
    requires forall i :: 0 <= i < |parts| ==> sep !in parts[i]
    ensures Split(Join(Texts(parts), sep), sep) == parts
    decreases |parts|
  {
    TextsCons(parts[0], parts[1..]);
    assert parts == [parts[0]] + parts[1..];
    if |parts| == 1 {
      SplitPrepend(parts[0], "", sep);
      assert parts[0] + "" == parts[0];
    } else {
      var rest := parts[1..];
      JoinThenSplit(rest, sep);
      JoinCons(Text(parts[0]), Texts(rest), sep);
      SplitAtFirstSeparator(parts[0], Join(Texts(rest), sep), sep);
    }
  }

  /** A join ends with its last element, rendered. */
  lemma {:induction false} JoinEndsWithLast(pieces: seq<Piece>, sep: char)
    requires |pieces| >= 1
    ensures EndsWith(Join(pieces, sep), Render(pieces[|pieces| - 1]))
    decreases |pieces|
  {
    if |pieces| > 1 {
      JoinEndsWithLast(pieces[1..], sep);
      var j := Join(pieces[1..], sep);
      var r := Render(pieces[0]) + [sep] + j;
      assert r[|r| - |j|..] == j;
    }
  }

  lemma {:induction false} CountAppend(a: string, b: string, c: char)
    ensures Count(a + b, c) == Count(a, c) + Count(b, c)
    decreases |a|
  {
    if |a| > 0 {
      assert (a + b)[0] == a[0] && (a + b)[1..] == a[1..] + b;
      CountAppend(a[1..], b, c);
    } else {
      assert a + b == b;
    }
  }

  lemma {:induction false} CountAbsent(s: string, c: char)
    requires c !in s
    ensures Count(s, c) == 0
    decreases |s|
  {
    if |s| > 0 {
      assert s == [s[0]] + s[1..];
      CountAbsent(s[1..], c);
    }
  }

  /** When no element contains the separator, a join holds exactly one separator
      between each pair of neighbours. */
  lemma {:induction false} JoinSeparatorCount(pieces: seq<Piece>, sep: char)
    requires |pieces| >= 1
    requires forall i :: 0 <= i < |pieces| ==> sep !in Render(pieces[i])
    ensures Count(Join(pieces, sep), sep) == |pieces| - 1
    decreases |pieces|
  {
    CountAbsent(Render(pieces[0]), sep);
    if |pieces| > 1 {
      JoinSeparatorCount(pieces[1..], sep);
      CountAppend(Render(pieces[0]), [sep], sep);
      CountAppend(Render(pieces[0]) + [sep], Join(pieces[1..], sep), sep);
    }
  }
}
