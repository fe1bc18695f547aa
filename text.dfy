/**
 * Python string primitives used by the two caption scripts: the whitespace
 * class shared by `str.strip()`, `str.split()` and the regular-expression
 * classes `\s` / `\S`, stripping a set of characters from both ends,
 * splitting into maximal non-whitespace runs and `" ".join`.
 */
module Text {

  /** Python's whitespace test (`str.isspace`, and `\s` in a `str` regex). */
  predicate IsSpace(c: char)
  {
    ('\t' <= c <= '\r') || ('\U{1C}' <= c <= ' ') || c == '\U{85}' || c == '\U{A0}'
    || c == '\U{1680}' || ('\U{2000}' <= c <= '\U{200A}') || c == '\U{2028}' || c == '\U{2029}'
    || c == '\U{202F}' || c == '\U{205F}' || c == '\U{3000}'
  }

  predicate AllSpace(s: string)
  {
    forall i :: 0 <= i < |s| ==> IsSpace(s[i])
  }

  /** What `\S+` matches: a non-empty run without whitespace. */
  predicate IsWord(w: string)
  {
    w != [] && forall i :: 0 <= i < |w| ==> !IsSpace(w[i])
  }

  /** `s.lstrip(chars)`: drops the longest prefix made of dropped characters. */
  function TrimLeft(s: string, drop: char -> bool): (r: string)
    ensures |r| <= |s| && r == s[|s| - |r|..]
    ensures forall k :: 0 <= k < |s| - |r| ==> drop(s[k])
    ensures r == [] || !drop(r[0])
  {
    if s != [] && drop(s[0]) then TrimLeft(s[1..], drop) else s
  }

  /** `s.rstrip(chars)`: drops the longest suffix made of dropped characters. */
  function TrimRight(s: string, drop: char -> bool): (r: string)
    ensures |r| <= |s| && r == s[..|r|]
    ensures forall k :: |r| <= k < |s| ==> drop(s[k])
    ensures r == [] || !drop(r[|r| - 1])
  {
    if s != [] && drop(s[|s| - 1]) then TrimRight(s[..|s| - 1], drop) else s
  }

  /** `s.strip(chars)`. */
  function Trim(s: string, drop: char -> bool): (r: string)
    ensures r == [] || (!drop(r[0]) && !drop(r[|r| - 1]))
  {
    var l := TrimLeft(s, drop);
    var r := TrimRight(l, drop);
    assert r != [] ==> r[0] == l[0];
    r
  }

  /** `s.strip()` with no argument. */
  function Strip(s: string): string
  {
    Trim(s, IsSpace)
  }

  /** Length of the leading run of non-whitespace characters. */
  function RunLen(s: string): (k: nat)
    ensures k <= |s|
    ensures forall i :: 0 <= i < k ==> !IsSpace(s[i])
    ensures k == |s| || IsSpace(s[k])
  {
    if s == [] || IsSpace(s[0]) then 0 else 1 + RunLen(s[1..])
  }

  /** `re.findall(r"\S+", s)`, which is also `s.split()`. */
  function Words(s: string): (ws: seq<string>)
    ensures forall i :: 0 <= i < |ws| ==> IsWord(ws[i])
    decreases |s|
  {
    if s == [] then []
    else if IsSpace(s[0]) then Words(s[1..])
    else
      var k := RunLen(s);
      [s[..k]] + Words(s[k..])
  }

  /** `" ".join(ws)`. */
  function Join(ws: seq<string>): string
  {
    if ws == [] then ""
    else if |ws| == 1 then ws[0]
    else ws[0] + " " + Join(ws[1..])
  }

  /** The words of every element, in order. */
  function WordsOfAll(ws: seq<string>): seq<string>
  {
    if ws == [] then [] else Words(ws[0]) + WordsOfAll(ws[1..])
  }

  // ---------------------------------------------------------------------------
  // Lemmas
  // ---------------------------------------------------------------------------

  /** The properties RunLen ensures determine it. */
  lemma {:induction false} RunLenUnique(s: string, k: nat)
    requires k <= |s|
    requires forall i :: 0 <= i < k ==> !IsSpace(s[i])
    requires k == |s| || IsSpace(s[k])
    ensures RunLen(s) == k
  {
    if k > 0 {
      RunLenUnique(s[1..], k - 1);
    }
  }

  /** A whitespace boundary splits the words of a concatenation. */
  lemma {:induction false} WordsAppend(a: string, b: string)
    requires b == [] || IsSpace(b[0])
    ensures Words(a + b) == Words(a) + Words(b)
    decreases |a|
  {
    if a == [] {
      assert a + b == b;
    } else if IsSpace(a[0]) {
      assert (a + b)[1..] == a[1..] + b;
      WordsAppend(a[1..], b);
    } else {
      var k := RunLen(a);
      RunLenUnique(a + b, k);
      assert (a + b)[..k] == a[..k];
      assert (a + b)[k..] == a[k..] + b;
      WordsAppend(a[k..], b);
    }
  }

  /** The words of a string are empty exactly when it is all whitespace. */
  lemma {:induction false} WordsEmptyIff(s: string)
    ensures Words(s) == [] <==> AllSpace(s)
    decreases |s|
  {
    if s != [] && IsSpace(s[0]) {
      WordsEmptyIff(s[1..]);
      assert AllSpace(s) <==> AllSpace(s[1..]) by {
        if AllSpace(s[1..]) {
          forall i | 0 <= i < |s| ensures IsSpace(s[i]) {
            if i > 0 { assert s[i] == s[1..][i - 1]; }
          }
        }
      }
    }
  }

  /** A word is its own only word. */
  lemma WordsOfWord(w: string)
    requires IsWord(w)
    ensures Words(w) == [w]
  {
    RunLenUnique(w, |w|);
    assert w[..|w|] == w;
    assert w[|w|..] == [];
    assert Words(w) == [w[..|w|]] + Words(w[|w|..]);
  }

  /** Joining with single spaces and splitting again gives back the words of the parts. */
  lemma {:induction false} WordsOfJoin(ws: seq<string>)
    ensures Words(Join(ws)) == WordsOfAll(ws)
  {
    if |ws| == 1 {
      assert WordsOfAll(ws[1..]) == [];
    } else if |ws| > 1 {
      WordsAppend(ws[0], " " + Join(ws[1..]));
      assert (" " + Join(ws[1..]))[1..] == Join(ws[1..]);
      assert ws[0] + " " + Join(ws[1..]) == ws[0] + (" " + Join(ws[1..]));
      WordsOfJoin(ws[1..]);
    }
  }

  lemma {:induction false} WordsOfAllAppend(a: seq<string>, b: seq<string>)
    ensures WordsOfAll(a + b) == WordsOfAll(a) + WordsOfAll(b)
  {
    if a != [] {
      assert (a + b)[1..] == a[1..] + b;
      WordsOfAllAppend(a[1..], b);
    } else {
      assert a + b == b;
    }
  }

  lemma {:induction false} WordsOfAllWords(ws: seq<string>)
    requires forall i :: 0 <= i < |ws| ==> IsWord(ws[i])
    ensures WordsOfAll(ws) == ws
  {
    if ws != [] {
      WordsOfWord(ws[0]);
      WordsOfAllWords(ws[1..]);
    }
  }

  /** Round trip: splitting a single-space join of words gives the words back. */
  lemma JoinThenSplit(ws: seq<string>)
    requires forall i :: 0 <= i < |ws| ==> IsWord(ws[i])
    ensures Words(Join(ws)) == ws
  {
    WordsOfJoin(ws);
    WordsOfAllWords(ws);
  }

  /** Removing the first character never adds a word. */
  lemma WordsDropFirst(s: string)
    requires s != []
    ensures |Words(s[1..])| <= |Words(s)|
  {
    if !IsSpace(s[0]) {
      var k := RunLen(s);
      if k > 1 {
        RunLenUnique(s[1..], k - 1);
        assert s[1..][k - 1..] == s[k..];
      } else {
        assert s[1..] == s[k..];
      }
    }
  }

  /** Removing the last character never adds a word. */
  lemma {:induction false} WordsDropLast(s: string)
    requires s != []
    ensures |Words(s[..|s| - 1])| <= |Words(s)|
    decreases |s|
  {
    var n := |s|;
    var t := s[..n - 1];
    if IsSpace(s[0]) {
      if n > 1 {
        assert t[1..] == s[1..][..n - 2];
        WordsDropLast(s[1..]);
      }
    } else {
      var k := RunLen(s);
      if k < n {
        RunLenUnique(t, k);
        assert t[..k] == s[..k];
        assert t[k..] == s[k..][..|s[k..]| - 1];
        WordsDropLast(s[k..]);
      } else {
        assert s[k..] == [];
        if n > 1 {
          RunLenUnique(t, n - 1);
          assert t[n - 1..] == [];
        }
      }
    }
  }

  lemma {:induction false} WordsTrimLeft(s: string, drop: char -> bool)
    ensures |Words(TrimLeft(s, drop))| <= |Words(s)|
    decreases |s|
  {
    if s != [] && drop(s[0]) {
      WordsTrimLeft(s[1..], drop);
      WordsDropFirst(s);
    }
  }

  lemma {:induction false} WordsTrimRight(s: string, drop: char -> bool)
    ensures |Words(TrimRight(s, drop))| <= |Words(s)|
    decreases |s|
  {
    if s != [] && drop(s[|s| - 1]) {
      WordsTrimRight(s[..|s| - 1], drop);
      WordsDropLast(s);
    }
  }

  /** Stripping any characters from the ends never adds a word. */
  lemma WordsTrim(s: string, drop: char -> bool)
    ensures |Words(Trim(s, drop))| <= |Words(s)|
  {
    WordsTrimLeft(s, drop);
    WordsTrimRight(TrimLeft(s, drop), drop);
  }

  /** Stripping whitespace does not change the words. */
  lemma WordsStrip(s: string)
    ensures Words(Strip(s)) == Words(s)
  {
    WordsStripLeft(s);
    WordsStripRight(TrimLeft(s, IsSpace));
  }

  lemma WordsStripRight(l: string)
    ensures Words(TrimRight(l, IsSpace)) == Words(l)
  {
    var r := TrimRight(l, IsSpace);
    var tail := l[|r|..];
    assert l == r + tail;
    assert AllSpace(tail) by {
      forall i | 0 <= i < |tail| ensures IsSpace(tail[i]) {
        assert tail[i] == l[|r| + i];
      }
    }
    WordsAppend(r, tail);
    WordsEmptyIff(tail);
  }

  lemma {:induction false} WordsStripLeft(s: string)
    ensures Words(TrimLeft(s, IsSpace)) == Words(s)
    decreases |s|
  {
    if s != [] && IsSpace(s[0]) {
      WordsStripLeft(s[1..]);
    }
  }

  // ---------------------------------------------------------------------------
  // Whitespace runs, `re.sub(r"\s+", " ", s)`, and the non-space text
  // ---------------------------------------------------------------------------

  /** Length of the leading run of whitespace. */
  function SpaceRunLen(s: string): (k: nat)
    ensures k <= |s|
    ensures forall i :: 0 <= i < k ==> IsSpace(s[i])
    ensures k == |s| || !IsSpace(s[k])
  {
    if s != [] && IsSpace(s[0]) then 1 + SpaceRunLen(s[1..]) else 0
  }

  /** No two whitespace characters are next to each other. */
  predicate NoDoubleSpace(s: string)
  {
    forall i, j :: 0 <= i < |s| && j == i + 1 && j < |s| ==> !(IsSpace(s[i]) && IsSpace(s[j]))
  }

  /** The only whitespace character is the plain space. */
  predicate OnlyBlank(s: string)
  {
    forall i :: 0 <= i < |s| && IsSpace(s[i]) ==> s[i] == ' '
  }

  /** `re.sub(r"\s+", " ", s)`: every maximal whitespace run becomes one space. */
  function Collapse(s: string): (r: string)
    ensures NoDoubleSpace(r) && OnlyBlank(r)
    ensures (r != [] && IsSpace(r[0])) <==> (s != [] && IsSpace(s[0]))
    ensures r == [] <==> s == []
    decreases |s|
  {
    if s == [] then []
    else if IsSpace(s[0]) then
      var rest := Collapse(s[SpaceRunLen(s)..]);
      assert forall i :: 1 <= i < |" " + rest| ==> (" " + rest)[i] == rest[i - 1];
      " " + rest
    else
      var rest := Collapse(s[1..]);
      assert forall i :: 1 <= i < |[s[0]] + rest| ==> ([s[0]] + rest)[i] == rest[i - 1];
      [s[0]] + rest
  }

  /** The non-whitespace characters, in order. */
  function NonSpace(s: string): string
  {
    if s == [] then [] else (if IsSpace(s[0]) then [] else [s[0]]) + NonSpace(s[1..])
  }

  lemma {:induction false} NonSpaceAppend(a: string, b: string)
    ensures NonSpace(a + b) == NonSpace(a) + NonSpace(b)
  {
    if a == [] {
      assert a + b == b;
    } else {
      assert (a + b)[1..] == a[1..] + b;
      NonSpaceAppend(a[1..], b);
    }
  }

  lemma {:induction false} NonSpaceOfSpaces(s: string)
    requires AllSpace(s)
    ensures NonSpace(s) == []
  {
    if s != [] {
      NonSpaceOfSpaces(s[1..]);
    }
  }

  /** Collapsing whitespace keeps every other character, in order. */
  lemma {:induction false} NonSpaceCollapse(s: string)
    ensures NonSpace(Collapse(s)) == NonSpace(s)
    decreases |s|
  {
    if s != [] {
      if IsSpace(s[0]) {
        var k := SpaceRunLen(s);
        NonSpaceCollapse(s[k..]);
        assert s == s[..k] + s[k..];
        NonSpaceAppend(s[..k], s[k..]);
        NonSpaceOfSpaces(s[..k]);
        assert (" " + Collapse(s[k..]))[1..] == Collapse(s[k..]);
      } else {
        NonSpaceCollapse(s[1..]);
        assert ([s[0]] + Collapse(s[1..]))[1..] == Collapse(s[1..]);
      }
    }
  }

  /** Stripping whitespace keeps every other character, in order. */
  lemma NonSpaceStrip(s: string)
    ensures NonSpace(Strip(s)) == NonSpace(s)
  {
    var l := TrimLeft(s, IsSpace);
    NonSpaceTrimLeft(s, l);
    NonSpaceTrimRight(l, TrimRight(l, IsSpace));
  }

  lemma NonSpaceTrimLeft(s: string, l: string)
    requires l == TrimLeft(s, IsSpace)
    ensures NonSpace(l) == NonSpace(s)
  {
    var head := s[..|s| - |l|];
    assert s == head + l;
    assert AllSpace(head);
    NonSpaceAppend(head, l);
    NonSpaceOfSpaces(head);
  }

  lemma NonSpaceTrimRight(l: string, r: string)
    requires r == TrimRight(l, IsSpace)
    ensures NonSpace(r) == NonSpace(l)
  {
    var tail := l[|r|..];
    assert l == r + tail;
    assert AllSpace(tail);
    NonSpaceAppend(r, tail);
    NonSpaceOfSpaces(tail);
  }

  /** Collapsing whitespace does not change the words. */
  lemma {:induction false} WordsCollapse(s: string)
    ensures Words(Collapse(s)) == Words(s)
    decreases |s|
  {
    if s != [] {
      if IsSpace(s[0]) {
        var k := SpaceRunLen(s);
        WordsCollapse(s[k..]);
        WordsCollapseSpace(s, k);
      } else {
        var k := RunLen(s);
        WordsCollapse(s[k..]);
        WordsCollapseWord(s, k);
      }
    }
  }

  lemma WordsCollapseSpace(s: string, k: nat)
    requires s != [] && IsSpace(s[0]) && k == SpaceRunLen(s)
    requires Words(Collapse(s[k..])) == Words(s[k..])
    ensures Words(Collapse(s)) == Words(s)
  {
    WordsSkipSpaces(s, k);
    var c := Collapse(s[k..]);
    assert Collapse(s) == " " + c;
    assert (" " + c)[1..] == c;
  }

  lemma WordsCollapseWord(s: string, k: nat)
    requires s != [] && !IsSpace(s[0]) && k == RunLen(s)
    requires Words(Collapse(s[k..])) == Words(s[k..])
    ensures Words(Collapse(s)) == Words(s)
  {
    CollapseRun(s, k);
    var c := Collapse(s[k..]);
    WordsAppend(s[..k], c);
    WordsOfWord(s[..k]);
  }

  lemma {:induction false} WordsSkipSpaces(s: string, k: nat)
    requires k <= |s| && forall i :: 0 <= i < k ==> IsSpace(s[i])
    ensures Words(s) == Words(s[k..])
  {
    if k > 0 {
      WordsSkipSpaces(s[1..], k - 1);
      assert s[1..][k - 1..] == s[k..];
    }
  }

  /** A leading run of non-whitespace passes through `Collapse` unchanged. */
  lemma {:induction false} CollapseRun(s: string, k: nat)
    requires k <= |s| && forall i :: 0 <= i < k ==> !IsSpace(s[i])
    ensures Collapse(s) == s[..k] + Collapse(s[k..])
  {
    if k > 0 {
      CollapseRun(s[1..], k - 1);
      assert s[1..][k - 1..] == s[k..];
      assert s[..k] == [s[0]] + s[1..][..k - 1];
    }
  }

  // ---------------------------------------------------------------------------
  // ASCII case mapping (`str.lower`, `str.upper` on ASCII letters)
  // ---------------------------------------------------------------------------

  function LowerChar(c: char): char
  {
    if 'A' <= c <= 'Z' then (c as int + 32) as char else c
  }

  function UpperChar(c: char): char
  {
    if 'a' <= c <= 'z' then (c as int - 32) as char else c
  }

  /** `s.lower()`, for the ASCII letters. */
  function Lower(s: string): (r: string)
    ensures |r| == |s| && forall i :: 0 <= i < |s| ==> r[i] == LowerChar(s[i])
  {
    seq(|s|, i requires 0 <= i < |s| => LowerChar(s[i]))
  }
}
