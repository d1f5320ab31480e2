/** The pieces of the Java platform that the plugin's configuration code
    relies on: references that may be null, and the java.lang.String
    operations it calls (split on a one-character delimiter, with and without
    a limit, ASCII upper-casing and case-insensitive comparison). */
module JavaLang {

  /** A Java reference that may be null. */
  datatype Option<+T> = None | Some(value: T)

  /** Guava's Strings.isNullOrEmpty. */
  predicate IsNullOrEmpty(s: Option<string>)
  {
    s.None? || s.value == ""
  }

  // ---------------------------------------------------------------------
  // Splitting on a single literal character
  // ---------------------------------------------------------------------

  /** The pieces of `s` between occurrences of `d`, empty ones included:
      there is always one more piece than there are occurrences of `d`. */
  function Pieces(s: string, d: char): (r: seq<string>)
    ensures |r| >= 1
    decreases |s|
  {
    if s == [] then [[]]
    else
      var rest := Pieces(s[1..], d);
      if s[0] == d then [[]] + rest else [[s[0]] + rest[0]] + rest[1..]
  }

  /** The parts, with `d` between each two neighbours. */
  function Join(parts: seq<string>, d: char): (joined: string)
    decreases |parts|
  {
    if |parts| == 0 then []
    else if |parts| == 1 then parts[0]
    else parts[0] + [d] + Join(parts[1..], d)
  }

  /** `n` copies of `d`. */
  function Repeat(d: char, n: nat): (r: string)
  {
    seq(n, _ => d)
  }

  /** `n` empty strings. */
  function Empties(n: nat): seq<string>
  {
    seq(n, _ => [])
  }

  /** Removes the empty strings at the end of `p`, as String.split does when
      its limit is zero. */
  function DropTrailingEmpty(p: seq<string>): (r: seq<string>)
    ensures r <= p
    ensures r == [] || r[|r| - 1] != []
    ensures forall j :: |r| <= j < |p| ==> p[j] == []
    decreases |p|
  {
    if |p| > 0 && p[|p| - 1] == [] then DropTrailingEmpty(p[..|p| - 1]) else p
  }

  /** `s.split(d)` (limit zero): the pieces with the trailing empty ones
      removed, except that a string without any `d` comes back whole (so the
      empty string gives one empty piece, and ":" split on ':' gives none). */
  function Split(s: string, d: char): (pieces: seq<string>)
  {
    if d in s then DropTrailingEmpty(Pieces(s, d)) else [s]
  }

  /** The index of the first `d` in `s`. */
  function IndexOf(s: string, d: char): (i: nat)
    requires d in s
    ensures i < |s| && s[i] == d && d !in s[..i]
  {
    if s[0] == d then 0
    else
      assert d in s[1..] by { var k :| 0 <= k < |s| && s[k] == d; assert s[1..][k - 1] == d; }
      var j := IndexOf(s[1..], d);
      assert s[..j + 1] == [s[0]] + s[1..][..j];
      1 + j
  }

  /** `s.split(d, 2)`: split at the first `d` only; a string without `d`
      comes back whole. */
  function SplitLimit2(s: string, d: char): (r: seq<string>)
    ensures d in s ==> |r| == 2 && r[0] + [d] + r[1] == s && d !in r[0]
    ensures d !in s ==> r == [s]
  {
    if d in s then
      var i := IndexOf(s, d);
      assert s == s[..i] + [d] + s[i + 1..];
      [s[..i], s[i + 1..]]
    else [s]
  }

  /** Splitting with limit 2 cuts at the first delimiter: the name before it
      and everything after it. */
  lemma SplitLimit2At(key: string, value: string, d: char)
    requires d !in key
    ensures SplitLimit2(key + [d] + value, d) == [key, value]
  {
    var s := key + [d] + value;
    assert s[|key|] == d;
    var i := IndexOf(s, d);
    assert s[..i] == key;
    assert s[i + 1..] == value;
  }

  // ---------------------------------------------------------------------
  // Pieces and Join are inverse to each other
  // ---------------------------------------------------------------------

  lemma {:induction false} JoinOfPieces(s: string, d: char)
    ensures Join(Pieces(s, d), d) == s
    decreases |s|
  {
    if s != [] {
      var rest := Pieces(s[1..], d);
      JoinOfPieces(s[1..], d);
      if s[0] == d {
        assert Pieces(s, d) == [[]] + rest;
        assert ([[]] + rest)[1..] == rest;
        assert s == [d] + s[1..];
      } else {
        var p := Pieces(s, d);
        assert p == [[s[0]] + rest[0]] + rest[1..];
        if |rest| == 1 {
          assert p == [[s[0]] + rest[0]];
          assert Join(rest, d) == rest[0];
        } else {
          assert p[1..] == rest[1..];
          assert Join(rest, d) == rest[0] + [d] + Join(rest[1..], d);
        }
        assert s == [s[0]] + s[1..];
      }
    }
  }

  lemma {:induction false} PiecesHaveNoDelimiter(s: string, d: char)
    ensures forall k :: 0 <= k < |Pieces(s, d)| ==> d !in Pieces(s, d)[k]
    decreases |s|
  {
    if s != [] {
      PiecesHaveNoDelimiter(s[1..], d);
    }
  }

  lemma {:induction false} PiecesOfUndelimited(p: string, d: char)
    requires d !in p
    ensures Pieces(p, d) == [p]
    decreases |p|
  {
    if p != [] {
      assert d !in p[1..] by { assert forall k :: 0 <= k < |p[1..]| ==> p[1..][k] == p[k + 1]; }
      PiecesOfUndelimited(p[1..], d);
      assert [p[0]] + p[1..] == p;
    }
  }

  lemma {:induction false} PiecesOfDelimited(p: string, s: string, d: char)
    requires d !in p
    ensures Pieces(p + [d] + s, d) == [p] + Pieces(s, d)
    decreases |p|
  {
    var t := p + [d] + s;
    if p == [] {
      assert t == [d] + s;
      assert t[1..] == s;
    } else {
      assert d !in p[1..] by { assert forall k :: 0 <= k < |p[1..]| ==> p[1..][k] == p[k + 1]; }
      PiecesOfDelimited(p[1..], s, d);
      assert t[1..] == p[1..] + [d] + s;
      assert [p[0]] + p[1..] == p;
    }
  }

  /** Splitting a joined sequence of delimiter-free parts gives the parts back. */
  lemma {:induction false} PiecesOfJoin(parts: seq<string>, d: char)
    requires |parts| >= 1
    requires forall k :: 0 <= k < |parts| ==> d !in parts[k]
    ensures Pieces(Join(parts, d), d) == parts
    decreases |parts|
  {
    if |parts| == 1 {
      PiecesOfUndelimited(parts[0], d);
    } else {
      PiecesOfJoin(parts[1..], d);
      PiecesOfDelimited(parts[0], Join(parts[1..], d), d);
      assert [parts[0]] + parts[1..] == parts;
    }
  }

  lemma {:induction false} PiecesOfRepeat(d: char, n: nat)
    ensures Pieces(Repeat(d, n), d) == Empties(n + 1)
    decreases n
  {
    if n == 0 {
      assert Repeat(d, 0) == [];
    } else {
      var s := Repeat(d, n);
      assert s[1..] == Repeat(d, n - 1);
      PiecesOfRepeat(d, n - 1);
      assert Empties(n + 1) == [[]] + Empties(n);
    }
  }

  // ---------------------------------------------------------------------
  // Positions of the elements that satisfy a test
  // ---------------------------------------------------------------------

  /** The positions of the elements of `s` that satisfy `p`, in increasing
      order. */
  function Positions<T>(s: seq<T>, p: T -> bool): (idx: seq<nat>)
    decreases |s|
  {
    if s == [] then []
    else Positions(s[..|s| - 1], p) + (if p(s[|s| - 1]) then [|s| - 1] else [])
  }

  /** The positions listed are those of the elements satisfying `p`, each
      once, in increasing order, and none is missing. */
  lemma PositionsAreExact<T>(s: seq<T>, p: T -> bool)
    ensures var idx := Positions(s, p);
      (forall j :: 0 <= j < |idx| ==> idx[j] < |s| && p(s[idx[j]])) &&
      (forall j, j' :: 0 <= j < j' < |idx| ==> idx[j] < idx[j']) &&
      (forall k :: 0 <= k < |s| && p(s[k]) ==> k in idx)
  {
    PositionsSatisfy(s, p);
    PositionsIncrease(s, p);
    PositionsComplete(s, p);
  }

  lemma {:induction false} PositionsSatisfy<T>(s: seq<T>, p: T -> bool)
    ensures forall j :: 0 <= j < |Positions(s, p)| ==> Positions(s, p)[j] < |s| && p(s[Positions(s, p)[j]])
    decreases |s|
  {
    if s != [] {
      var init := s[..|s| - 1];
      PositionsSatisfy(init, p);
      PositionsIncrease(s, p);
      var idx0, idx := Positions(init, p), Positions(s, p);
      assert idx == idx0 + (if p(s[|s| - 1]) then [|s| - 1] else []);
      forall j | 0 <= j < |idx| ensures p(s[idx[j]]) {
        if j < |idx0| {
          var k := idx0[j];
          assert p(init[k]);
          assert idx[j] == k && init[k] == s[k];
        } else {
          assert idx[j] == |s| - 1;
        }
      }
    }
  }

  lemma {:induction false} PositionsIncrease<T>(s: seq<T>, p: T -> bool)
    ensures forall j :: 0 <= j < |Positions(s, p)| ==> Positions(s, p)[j] < |s|
    ensures forall j, j' :: 0 <= j < j' < |Positions(s, p)| ==> Positions(s, p)[j] < Positions(s, p)[j']
    decreases |s|
  {
    if s != [] {
      var init := s[..|s| - 1];
      PositionsIncrease(init, p);
      var idx0, idx := Positions(init, p), Positions(s, p);
      assert idx == idx0 + (if p(s[|s| - 1]) then [|s| - 1] else []);
      forall j | 0 <= j < |idx| ensures idx[j] < |s| && (j < |idx0| ==> idx[j] < |s| - 1) {
        if j < |idx0| {
          assert idx[j] == idx0[j] && idx0[j] < |init|;
        } else {
          assert idx[j] == |s| - 1;
        }
      }
      forall j, j' | 0 <= j < j' < |idx| ensures idx[j] < idx[j'] {
        if j' < |idx0| {
          assert idx[j] == idx0[j] && idx[j'] == idx0[j'];
        } else {
          assert idx[j'] == |s| - 1;
        }
      }
    }
  }

  lemma {:induction false} PositionsComplete<T>(s: seq<T>, p: T -> bool)
    ensures forall k :: 0 <= k < |s| && p(s[k]) ==> k in Positions(s, p)
    decreases |s|
  {
    if s != [] {
      var init := s[..|s| - 1];
      PositionsComplete(init, p);
      var idx0, idx := Positions(init, p), Positions(s, p);
      assert idx == idx0 + (if p(s[|s| - 1]) then [|s| - 1] else []);
      forall k | 0 <= k < |s| && p(s[k]) ensures k in idx {
        if k < |s| - 1 {
          assert init[k] == s[k];
        }
      }
    }
  }

  // ---------------------------------------------------------------------
  // ASCII case
  // ---------------------------------------------------------------------

  /** Character.toUpperCase restricted to ASCII letters. */
  function UpperAscii(ch: char): char
  {
    if 'a' <= ch <= 'z' then (ch as int - 32) as char else ch
  }

  /** String.toUpperCase for ASCII text. */
  function ToUpperCase(s: string): (r: string)
    ensures |r| == |s| && forall k :: 0 <= k < |s| ==> r[k] == UpperAscii(s[k])
  {
    seq(|s|, k requires 0 <= k < |s| => UpperAscii(s[k]))
  }

  /** String.equalsIgnoreCase for ASCII text. */
  predicate EqualsIgnoreCase(a: string, b: string)
  {
    |a| == |b| && forall k :: 0 <= k < |a| ==> UpperAscii(a[k]) == UpperAscii(b[k])
  }

  /** Upper-casing `s` gives the upper-case word `w` exactly when `s` equals `w`
      ignoring case. */
  lemma UpperCaseMatches(s: string, w: string)
    requires ToUpperCase(w) == w
    ensures ToUpperCase(s) == w <==> EqualsIgnoreCase(s, w)
  {
    if EqualsIgnoreCase(s, w) {
      assert forall k :: 0 <= k < |s| ==> ToUpperCase(s)[k] == w[k] by {
        forall k | 0 <= k < |s| ensures ToUpperCase(s)[k] == w[k] {
          assert ToUpperCase(w)[k] == UpperAscii(w[k]);
        }
      }
    }
    if ToUpperCase(s) == w {
      forall k | 0 <= k < |s| ensures UpperAscii(s[k]) == UpperAscii(w[k]) {
        assert ToUpperCase(w)[k] == UpperAscii(w[k]);
      }
    }
  }
}
