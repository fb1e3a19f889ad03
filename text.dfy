/**
 * The few Python string operations the backend relies on: str.lower,
 * str.endswith, str.strip, str.split(",") and, as their inverse, ",".join.
 * Strings are sequences of Unicode scalar values.
 */
module Text {

  /** Python's str.isspace(): the characters that str.strip() with no argument removes. */
  predicate IsSpace(c: char)
  {
    c == ' ' || '\t' <= c <= '\r' || '\U{1c}' <= c <= '\U{1f}' || c == '\U{85}' || c == '\U{a0}'
    || c == '\U{1680}' || '\U{2000}' <= c <= '\U{200a}' || c == '\U{2028}' || c == '\U{2029}'
    || c == '\U{202f}' || c == '\U{205f}' || c == '\U{3000}'
  }

  predicate AllSpace(s: string)
  {
    forall k :: 0 <= k < |s| ==> IsSpace(s[k])
  }

  /** Neither end of s is whitespace (the empty string qualifies). */
  predicate NoEdgeSpace(s: string)
  {
    s == [] || (!IsSpace(s[0]) && !IsSpace(s[|s| - 1]))
  }

  // ---------------- lower-casing and suffixes ----------------

  /** Lower-casing of one character, restricted to the ASCII letters. */
  function LowerChar(c: char): char
  {
    if 'A' <= c <= 'Z' then (c as int + 32) as char else c
  }

  /** Lower-casing maps a dot, and nothing else, to a dot. */
  lemma LowerCharDot(c: char)
    ensures LowerChar(c) == '.' <==> c == '.'
  {
  }

  /** ASCII lower-casing: str.lower() on ASCII text, character by character. */
  function Lower(s: string): (r: string)
    ensures |r| == |s|
  {
    seq(|s|, i requires 0 <= i < |s| => LowerChar(s[i]))
  }

  lemma LowerIdempotent(s: string)
    ensures Lower(Lower(s)) == Lower(s)
  {
    assert forall i :: 0 <= i < |s| ==> Lower(Lower(s))[i] == Lower(s)[i];
  }

  /** Lower-casing commutes with taking a suffix. */
  lemma LowerSuffix(s: string, a: nat)
    requires a <= |s|
    ensures Lower(s[a..]) == Lower(s)[a..]
  {
    assert forall i :: 0 <= i < |s| - a ==> Lower(s[a..])[i] == Lower(s)[a..][i];
  }

  /** str.endswith(suffix). */
  predicate EndsWith(s: string, suffix: string)
  {
    |suffix| <= |s| && s[|s| - |suffix|..] == suffix
  }

  // ---------------- strip ----------------

  /** Where the leading whitespace of s ends. */
  function SpaceBefore(s: string): (i: nat)
    ensures i <= |s|
    ensures forall k :: 0 <= k < i ==> IsSpace(s[k])
    ensures i < |s| ==> !IsSpace(s[i])
    decreases |s|
  {
    if s != [] && IsSpace(s[0]) then
      var i := 1 + SpaceBefore(s[1..]);
      assert forall k :: 1 <= k < |s| ==> s[k] == s[1..][k - 1];
      i
    else 0
  }

  /** Where the trailing whitespace of s begins. */
  function SpaceAfter(s: string): (j: nat)
    ensures j <= |s|
    ensures forall k :: j <= k < |s| ==> IsSpace(s[k])
    ensures 0 < j ==> !IsSpace(s[j - 1])
    decreases |s|
  {
    if s != [] && IsSpace(s[|s| - 1]) then
      var j := SpaceAfter(s[..|s| - 1]);
      assert forall k :: 0 <= k < |s| - 1 ==> s[k] == s[..|s| - 1][k];
      j
    else |s|
  }

  /**
   * str.strip(): the block of s that begins after its leading whitespace
   * and holds every other non-whitespace character of s; the result neither
   * starts nor ends with whitespace, and it is empty exactly when s is blank.
   */
  function Strip(s: string): (r: string)
    ensures SpaceBefore(s) + |r| <= |s|
    ensures forall k :: 0 <= k < |r| ==> r[k] == s[SpaceBefore(s) + k]
    ensures forall k :: 0 <= k < |s| && !IsSpace(s[k]) ==> SpaceBefore(s) <= k < SpaceBefore(s) + |r|
    ensures NoEdgeSpace(r)
    ensures r == [] <==> AllSpace(s)
  {
    var i := SpaceBefore(s);
    var j := SpaceAfter(s);
    if i < j then s[i..j] else []
  }

  /** A string without whitespace at its ends is its own strip. */
  lemma StripNoEdgeSpace(s: string)
    requires NoEdgeSpace(s)
    ensures Strip(s) == s
  {
    if s != [] {
      assert SpaceBefore(s) == 0;
      assert SpaceAfter(s) == |s|;
    }
  }

  // ---------------- split and join ----------------

  /** sep.join(pieces). */
  function Join(pieces: seq<string>, sep: char): (s: string)
    decreases |pieces|
  {
    if |pieces| == 0 then []
    else if |pieces| == 1 then pieces[0]
    else pieces[0] + [sep] + Join(pieces[1..], sep)
  }

  /** s.split(sep) for a one-character separator; no piece holds the separator. */
  function Split(s: string, sep: char): (pieces: seq<string>)
    ensures |pieces| >= 1
    ensures forall k :: 0 <= k < |pieces| ==> sep !in pieces[k]
    decreases |s|
  {
    if s == [] then [[]]
    else
      var rest := Split(s[1..], sep);
      if s[0] == sep then [[]] + rest
      else [[s[0]] + rest[0]] + rest[1..]
  }

  /** A split has one piece more than there are separators in the string. */
  lemma {:induction false} SplitCount(s: string, sep: char)
    ensures |Split(s, sep)| == multiset(s)[sep] + 1
    decreases |s|
  {
    if s != [] {
      SplitCount(s[1..], sep);
      assert s == [s[0]] + s[1..];
      assert multiset(s) == multiset([s[0]]) + multiset(s[1..]);
    }
  }

  /** Joining the pieces of a split gives back the string. */
  lemma {:induction false} JoinSplit(s: string, sep: char)
    ensures Join(Split(s, sep), sep) == s
    decreases |s|
  {
    if s != [] {
      var rest := Split(s[1..], sep);
      JoinSplit(s[1..], sep);
      assert s == [s[0]] + s[1..];
      if s[0] == sep {
        JoinCons([], rest, sep);
      } else {
        JoinExtendFirst(s[0], rest, sep);
      }
    }
  }

  lemma JoinCons(p: string, pieces: seq<string>, sep: char)
    requires |pieces| >= 1
    ensures Join([p] + pieces, sep) == p + [sep] + Join(pieces, sep)
  {
    assert ([p] + pieces)[1..] == pieces;
  }

  /** Prepending a character to the first piece prepends it to the joined string. */
  lemma JoinExtendFirst(c: char, pieces: seq<string>, sep: char)
    requires |pieces| >= 1
    ensures Join([[c] + pieces[0]] + pieces[1..], sep) == [c] + Join(pieces, sep)
  {
    if |pieces| > 1 {
      JoinCons([c] + pieces[0], pieces[1..], sep);
      JoinCons(pieces[0], pieces[1..], sep);
      assert pieces == [pieces[0]] + pieces[1..];
    }
  }

  /** Split of a string with one more character in front. */
  lemma SplitCons(c: char, s: string, sep: char)
    ensures Split([c] + s, sep)
         == if c == sep then [[]] + Split(s, sep) else [[c] + Split(s, sep)[0]] + Split(s, sep)[1..]
  {
    assert ([c] + s)[1..] == s;
  }

  /** Splitting a string whose prefix p holds no separator extends the first piece by p. */
  lemma {:induction false} SplitSeparatorFreePrefix(p: string, t: string, sep: char)
    requires sep !in p
    ensures Split(p + t, sep) == [p + Split(t, sep)[0]] + Split(t, sep)[1..]
    decreases |p|
  {
    var rest := Split(t, sep);
    if p == [] {
      assert p + t == t;
      assert p + rest[0] == rest[0];
      assert rest == [rest[0]] + rest[1..];
    } else {
      var q := p[1..];
      var inner := Split(q + t, sep);
      assert inner[0] == q + rest[0] && inner[1..] == rest[1..] by {
        SplitSeparatorFreePrefix(q, t, sep);
      }
      assert Split(p + t, sep) == [[p[0]] + inner[0]] + inner[1..] by {
        assert p + t == [p[0]] + (q + t);
        SplitCons(p[0], q + t, sep);
      }
      assert [p[0]] + (q + rest[0]) == p + rest[0] by {
        assert p == [p[0]] + q;
      }
    }
  }

  /** Join and Split are inverse: split(join(pieces)) == pieces when no piece holds the separator. */
  lemma {:induction false} SplitJoin(pieces: seq<string>, sep: char)
    requires |pieces| >= 1
    requires forall k :: 0 <= k < |pieces| ==> sep !in pieces[k]
    ensures Split(Join(pieces, sep), sep) == pieces
    decreases |pieces|
  {
    if |pieces| == 1 {
      SplitSeparatorFreePrefix(pieces[0], [], sep);
      assert pieces[0] + [] == pieces[0];
    } else {
      var rest := Join(pieces[1..], sep);
      SplitJoin(pieces[1..], sep);
      assert Join(pieces, sep) == pieces[0] + ([sep] + rest);
      SplitSeparatorFreePrefix(pieces[0], [sep] + rest, sep);
      var after := Split([sep] + rest, sep);
      assert after == [[]] + pieces[1..] by {
        SplitCons(sep, rest, sep);
      }
      assert after[0] == [] && after[1..] == pieces[1..];
      assert pieces[0] + after[0] == pieces[0];
      assert pieces == [pieces[0]] + pieces[1..];
    }
  }

  /** Every character of a piece occurs in the joined string. */
  lemma {:induction false} JoinContainsPieces(pieces: seq<string>, sep: char, k: nat, j: nat)
    requires k < |pieces| && j < |pieces[k]|
    ensures pieces[k][j] in Join(pieces, sep)
    decreases |pieces|
  {
    if |pieces| > 1 {
      if k == 0 {
        assert pieces[0][j] == Join(pieces, sep)[j];
      } else {
        JoinContainsPieces(pieces[1..], sep, k - 1, j);
        assert Join(pieces, sep) == (pieces[0] + [sep]) + Join(pieces[1..], sep);
      }
    }
  }

  /** Every character of a piece of a split occurs in the split string. */
  lemma SplitPieceChar(s: string, sep: char, k: nat, j: nat)
    requires k < |Split(s, sep)| && j < |Split(s, sep)[k]|
    ensures Split(s, sep)[k][j] in s && Split(s, sep)[k][j] != sep
  {
    JoinSplit(s, sep);
    JoinContainsPieces(Split(s, sep), sep, k, j);
  }

  /** Every character of the joined string other than the separator comes from some piece. */
  lemma {:induction false} JoinCharFromPiece(pieces: seq<string>, sep: char, j: nat)
    requires j < |Join(pieces, sep)| && Join(pieces, sep)[j] != sep
    ensures exists k :: 0 <= k < |pieces| && Join(pieces, sep)[j] in pieces[k]
    decreases |pieces|
  {
    var s := Join(pieces, sep);
    if |pieces| == 1 {
      assert s[j] in pieces[0];
    } else if j < |pieces[0]| {
      assert s[j] == pieces[0][j];
    } else {
      var rest := Join(pieces[1..], sep);
      assert s == (pieces[0] + [sep]) + rest;
      assert j != |pieces[0]|;
      assert s[j] == rest[j - |pieces[0]| - 1];
      JoinCharFromPiece(pieces[1..], sep, j - |pieces[0]| - 1);
      var k :| 0 <= k < |pieces[1..]| && rest[j - |pieces[0]| - 1] in pieces[1..][k];
      assert s[j] in pieces[k + 1];
    }
  }

  /** The joined string starts with the first piece's first character... */
  lemma {:induction false} JoinFirst(pieces: seq<string>, sep: char)
    requires |pieces| >= 1 && pieces[0] != []
    ensures Join(pieces, sep) != [] && Join(pieces, sep)[0] == pieces[0][0]
  {
  }

  /** ...and ends with the last piece's last character. */
  lemma {:induction false} JoinLast(pieces: seq<string>, sep: char)
    requires |pieces| >= 1 && pieces[|pieces| - 1] != []
    ensures var s := Join(pieces, sep); s != [] && s[|s| - 1] == pieces[|pieces| - 1][|pieces[|pieces| - 1]| - 1]
    decreases |pieces|
  {
    if |pieces| > 1 {
      JoinLast(pieces[1..], sep);
    }
  }
}
