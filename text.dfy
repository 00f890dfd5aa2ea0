/** Python's `str` builtins that KeyboardLogic relies on: `isspace` (which
    drives `strip()` and `split()`), `strip()`, `split()` with no separator,
    `' '.join(...)`, `lower()` and `upper()`. */
module Text {

  /** `c.isspace()` in Python 3: the characters Unicode lists as white space
      or as a separator of type B or S. */
  predicate IsSpace(c: char) {
    ('\t' <= c <= '\r') || ('\U{1C}' <= c <= '\U{1F}') || c == ' '
    || c == '\U{85}' || c == '\U{A0}' || c == '\U{1680}'
    || ('\U{2000}' <= c <= '\U{200A}') || c == '\U{2028}' || c == '\U{2029}'
    || c == '\U{202F}' || c == '\U{205F}' || c == '\U{3000}'
  }

  /** Every character of `s` is white space (so `s.strip()` is empty). */
  predicate AllSpace(s: string) {
    forall i :: 0 <= i < |s| ==> IsSpace(s[i])
  }

  /** A non-empty string without white space: what `split()` yields. */
  predicate IsWord(w: string) {
    w != [] && forall i :: 0 <= i < |w| ==> !IsSpace(w[i])
  }

  /** `s.lstrip()`: the suffix of `s` after its leading white space. */
  function StripLeft(s: string): (r: string)
    ensures |r| <= |s| && r == s[|s| - |r|..]
    ensures AllSpace(s[..|s| - |r|])
    ensures r == [] || !IsSpace(r[0])
  {
    if s != [] && IsSpace(s[0]) then
      var r := StripLeft(s[1..]);
      assert s[|s| - |r|..] == s[1..][|s| - 1 - |r|..];
      SpaceCons(s[0], s[1..][..|s| - 1 - |r|]);
      assert s[..|s| - |r|] == [s[0]] + s[1..][..|s| - 1 - |r|];
      r
    else s
  }

  /** `s.rstrip()`: the prefix of `s` before its trailing white space. */
  function StripRight(s: string): (r: string)
    ensures |r| <= |s| && r == s[..|r|]
    ensures AllSpace(s[|r|..])
    ensures r == [] || !IsSpace(r[|r| - 1])
  {
    if s != [] && IsSpace(s[|s| - 1]) then
      var init := s[..|s| - 1];
      var r := StripRight(init);
      assert r == s[..|r|];
      SpaceSnoc(init[|r|..], s[|s| - 1]);
      assert s[|r|..] == init[|r|..] + [s[|s| - 1]];
      r
    else s
  }

  lemma SpaceCons(c: char, t: string)
    requires IsSpace(c) && AllSpace(t)
    ensures AllSpace([c] + t)
  {
    forall i | 0 <= i < |[c] + t| ensures IsSpace(([c] + t)[i]) {
      if i > 0 { assert ([c] + t)[i] == t[i - 1]; }
    }
  }

  lemma SpaceSnoc(t: string, c: char)
    requires AllSpace(t) && IsSpace(c)
    ensures AllSpace(t + [c])
  {
    forall i | 0 <= i < |t + [c]| ensures IsSpace((t + [c])[i]) {
      if i < |t| { assert (t + [c])[i] == t[i]; }
    }
  }

  /** `s.strip()`. */
  function Strip(s: string): (r: string)
    ensures r == [] <==> AllSpace(s)
    ensures r != [] ==> !IsSpace(r[0]) && !IsSpace(r[|r| - 1])
  {
    var l := StripLeft(s);
    var r := StripRight(l);
    assert AllSpace(s) ==> AllSpace(l);
    assert r == [] ==> AllSpace(l) by {
      if r == [] { assert l[|r|..] == l; }
    }
    assert r == [] ==> AllSpace(s) by {
      if r == [] {
        forall i | 0 <= i < |s| ensures IsSpace(s[i]) {
          if i < |s| - |l| { assert s[..|s| - |l|][i] == s[i]; }
          else { assert s[i] == l[i - (|s| - |l|)]; }
        }
      }
    }
    r
  }

  /** `s.strip()` is the part of `s` between its leading and its trailing
      white space. */
  lemma StripInfix(s: string)
    ensures exists i, j :: 0 <= i <= j <= |s| && Strip(s) == s[i..j] && AllSpace(s[..i]) && AllSpace(s[j..])
  {
    var l := StripLeft(s);
    var r := StripRight(l);
    var i := |s| - |l|;
    assert s[..i] == s[..|s| - |l|];
    assert r == s[i..i + |r|] && s[i + |r|..] == l[|r|..];
  }

  /** `s.split()`: the maximal runs of non-white-space characters, in order.
      A character that is not white space either starts a new word or, when
      the next character is not white space either, is glued to the front of
      the word that the rest of the string starts with. */
  function Split(s: string): (r: seq<string>)
    decreases |s|
  {
    if s == [] then []
    else
      var rest := Split(s[1..]);
      if IsSpace(s[0]) then rest
      else if |s| > 1 && !IsSpace(s[1]) then Glue(s[0], rest)
      else [[s[0]]] + rest
  }

  /** `x` put in front of the first word. */
  function Glue(x: char, ws: seq<string>): (r: seq<string>) {
    if ws == [] then [[x]] else [[x] + ws[0]] + ws[1..]
  }

  /** `split()` yields words: non-empty, without white space. */
  lemma {:induction false} SplitWords(s: string)
    ensures forall i :: 0 <= i < |Split(s)| ==> IsWord(Split(s)[i])
    decreases |s|
  {
    if s != [] {
      var rest := Split(s[1..]);
      SplitWords(s[1..]);
      if !IsSpace(s[0]) && |s| > 1 && !IsSpace(s[1]) {
        SplitStarts(s[1..]);
        GlueWord(s[0], rest);
      }
    }
  }

  lemma GlueWord(x: char, ws: seq<string>)
    requires !IsSpace(x) && ws != [] && forall i :: 0 <= i < |ws| ==> IsWord(ws[i])
    ensures forall i :: 0 <= i < |Glue(x, ws)| ==> IsWord(Glue(x, ws)[i])
  {
    var g := Glue(x, ws);
    forall i | 0 <= i < |g| ensures IsWord(g[i]) {
      if i == 0 {
        forall k | 0 <= k < |g[0]| ensures !IsSpace(g[0][k]) {
          if k > 0 { assert g[0][k] == ws[0][k - 1]; }
        }
      } else {
        assert g[i] == ws[i];
      }
    }
  }

  /** `split()` yields nothing exactly for a string of white space. */
  lemma {:induction false} SplitEmpty(s: string)
    ensures Split(s) == [] <==> AllSpace(s)
    decreases |s|
  {
    if s != [] {
      SplitEmpty(s[1..]);
      if IsSpace(s[0]) {
        assert AllSpace(s[1..]) ==> AllSpace(s) by {
          if AllSpace(s[1..]) {
            forall i | 0 <= i < |s| ensures IsSpace(s[i]) {
              if i > 0 { assert s[i] == s[1..][i - 1]; }
            }
          }
        }
        assert AllSpace(s) ==> AllSpace(s[1..]) by {
          if AllSpace(s) {
            forall i | 0 <= i < |s[1..]| ensures IsSpace(s[1..][i]) { assert s[1..][i] == s[i + 1]; }
          }
        }
      }
    }
  }

  /** A string that starts with a non-white-space character has a first word. */
  lemma SplitStarts(t: string)
    requires t != [] && !IsSpace(t[0])
    ensures Split(t) != []
  {
  }

  /** `' '.join(ws)`. */
  function Join(ws: seq<string>): (r: string)
    ensures ws == [] ==> r == []
    decreases |ws|
  {
    if ws == [] then []
    else if |ws| == 1 then ws[0]
    else Join(ws[..|ws| - 1]) + " " + ws[|ws| - 1]
  }

  /** `str.lower()` on one character. Exact for ASCII and Latin-1. */
  function LowerChar(c: char): (r: char)
    ensures 'A' <= c <= 'Z' ==> r as int == c as int + 32
    ensures '\U{C0}' <= c <= '\U{DE}' && c != '\U{D7}' ==> r as int == c as int + 32
    ensures !('A' <= c <= 'Z') && !('\U{C0}' <= c <= '\U{DE}' && c != '\U{D7}') ==> r == c
  {
    if 'A' <= c <= 'Z' then (c as int + 32) as char
    else if '\U{C0}' <= c <= '\U{DE}' && c != '\U{D7}' then (c as int + 32) as char
    else c
  }

  /** `str.upper()` on a one-character string. Exact for ASCII and Latin-1,
      including the two Latin-1 letters whose capitals lie outside Latin-1
      and the German sharp s, whose capital form is two letters. */
  function UpperChar(c: char): (r: string)
    ensures 1 <= |r| <= 2
    ensures 'a' <= c <= 'z' ==> r == [(c as int - 32) as char]
    ensures c == '\U{B5}' ==> r == "\U{39C}"
    ensures c == '\U{DF}' ==> r == "SS"
    ensures c == '\U{FF}' ==> r == "\U{178}"
    ensures '\U{E0}' <= c <= '\U{FE}' && c != '\U{F7}' ==> r == [(c as int - 32) as char]
    ensures (!('a' <= c <= 'z') && c != '\U{B5}' && c != '\U{DF}' && c != '\U{FF}'
             && !('\U{E0}' <= c <= '\U{FE}' && c != '\U{F7}')) ==> r == [c]
  {
    if 'a' <= c <= 'z' then [(c as int - 32) as char]
    else if c == '\U{B5}' then "\U{39C}"
    else if c == '\U{DF}' then "SS"
    else if c == '\U{FF}' then "\U{178}"
    else if '\U{E0}' <= c <= '\U{FE}' && c != '\U{F7}' then [(c as int - 32) as char]
    else [c]
  }

  /** `s.lower()`: one character for one character. */
  function Lower(s: string): (r: string)
    ensures |r| == |s|
    ensures forall i :: 0 <= i < |s| ==> r[i] == LowerChar(s[i])
  {
    seq(|s|, i requires 0 <= i < |s| => LowerChar(s[i]))
  }

  /** `s.upper()`. */
  function Upper(s: string): (r: string)
    ensures |s| <= |r| <= 2 * |s|
    decreases |s|
  {
    if s == [] then [] else Upper(s[..|s| - 1]) + UpperChar(s[|s| - 1])
  }

  /** Lower-casing does not change which characters are white space. */
  lemma LowerKeepsSpace(c: char)
    ensures IsSpace(LowerChar(c)) == IsSpace(c)
  {
  }

  /** Lower-casing twice is lower-casing once. */
  lemma LowerIdempotent(s: string)
    ensures Lower(Lower(s)) == Lower(s)
  {
    forall i | 0 <= i < |s| ensures LowerChar(LowerChar(s[i])) == LowerChar(s[i]) {
      LowerCharIdempotent(s[i]);
    }
  }

  lemma LowerCharIdempotent(c: char)
    ensures LowerChar(LowerChar(c)) == LowerChar(c)
  {
  }

  /** A small letter of ASCII or Latin-1 whose capital is one Latin-1
      character (all but µ, ß and ÿ) has a capital that differs from it
      and lower-cases back to it. */
  lemma LowerUndoesUpper(c: char)
    requires ('a' <= c <= 'z') || ('\U{E0}' <= c <= '\U{FE}' && c != '\U{F7}')
    ensures |UpperChar(c)| == 1 && UpperChar(c)[0] != c && LowerChar(UpperChar(c)[0]) == c
  {
  }

  /** A capital of ASCII or Latin-1 has a small form that differs from it
      and upper-cases back to it. */
  lemma UpperUndoesLower(c: char)
    requires ('A' <= c <= 'Z') || ('\U{C0}' <= c <= '\U{DE}' && c != '\U{D7}')
    ensures LowerChar(c) != c && UpperChar(LowerChar(c)) == [c]
  {
  }

  /** Lower-casing works character by character. */
  lemma LowerAppend(a: string, b: string)
    ensures Lower(a + b) == Lower(a) + Lower(b)
  {
    assert forall i :: 0 <= i < |a + b| ==> Lower(a + b)[i] == (Lower(a) + Lower(b))[i];
  }

  /** A leading white-space character adds no word. */
  lemma SplitConsSpace(x: char, t: string)
    requires IsSpace(x)
    ensures Split([x] + t) == Split(t)
  {
    assert ([x] + t)[1..] == t;
  }

  /** A leading character followed by one that is not white space joins the
      first word. */
  lemma SplitConsGlue(x: char, t: string)
    requires !IsSpace(x) && t != [] && !IsSpace(t[0])
    ensures Split([x] + t) == Glue(x, Split(t))
  {
    assert ([x] + t)[1..] == t;
  }

  /** A leading character followed by white space or nothing is a word of
      its own. */
  lemma SplitConsNew(x: char, t: string)
    requires !IsSpace(x) && (t == [] || IsSpace(t[0]))
    ensures Split([x] + t) == [[x]] + Split(t)
  {
    assert ([x] + t)[1..] == t;
  }

  /** A white-space character between two strings separates their words:
      `(a + c + b).split() == a.split() + b.split()`. */
  lemma {:induction false} SplitAround(a: string, c: char, b: string)
    requires IsSpace(c)
    ensures Split(a + [c] + b) == Split(a) + Split(b)
    decreases |a|
  {
    if a == [] {
      SplitConsSpace(c, b);
      assert a + [c] + b == [c] + b;
    } else {
      var x, a' := a[0], a[1..];
      assert a == [x] + a';
      assert a + [c] + b == [x] + (a' + [c] + b);
      SplitAround(a', c, b);
      SplitAroundStep(x, a', c, b);
    }
  }

  /** The inductive step of SplitAround, for the first character `x` of `a`. */
  lemma SplitAroundStep(x: char, a': string, c: char, b: string)
    requires IsSpace(c)
    requires Split(a' + [c] + b) == Split(a') + Split(b)
    ensures Split([x] + (a' + [c] + b)) == Split([x] + a') + Split(b)
  {
    var tail := a' + [c] + b;
    if IsSpace(x) {
      SplitConsSpace(x, tail);
      SplitConsSpace(x, a');
    } else if a' != [] && !IsSpace(a'[0]) {
      assert tail[0] == a'[0];
      SplitConsGlue(x, tail);
      SplitConsGlue(x, a');
      SplitStarts(a');
      GlueStep(x, Split(a'), Split(b));
    } else {
      assert tail[0] == if a' == [] then c else a'[0];
      SplitConsNew(x, tail);
      SplitConsNew(x, a');
      assert [[x]] + (Split(a') + Split(b)) == [[x]] + Split(a') + Split(b);
    }
  }

  /** Gluing onto the front of a concatenation touches only its first part. */
  lemma GlueStep(x: char, t: seq<string>, u: seq<string>)
    requires t != []
    ensures Glue(x, t + u) == Glue(x, t) + u
  {
    assert (t + u)[0] == t[0];
    assert (t + u)[1..] == t[1..] + u;
  }

  /** Trailing white space adds no word. */
  lemma SplitTrailingSpace(a: string, c: char)
    requires IsSpace(c)
    ensures Split(a + [c]) == Split(a)
  {
    SplitAround(a, c, []);
    assert a + [c] + [] == a + [c];
  }

  /** A word splits into itself. */
  lemma {:induction false} SplitWord(w: string)
    requires IsWord(w)
    ensures Split(w) == [w]
    decreases |w|
  {
    if |w| > 1 {
      var w' := w[1..];
      assert IsWord(w') by {
        forall i | 0 <= i < |w'| ensures !IsSpace(w'[i]) { assert w'[i] == w[i + 1]; }
      }
      SplitWord(w');
      assert w[1] == w'[0];
      assert [w[0]] + w' == w;
    } else {
      assert w[1..] == [];
      assert [w[0]] == w;
    }
  }

  /** Joining words with single spaces and splitting again gives them back. */
  lemma {:induction false} SplitJoin(ws: seq<string>)
    requires forall i :: 0 <= i < |ws| ==> IsWord(ws[i])
    ensures Split(Join(ws)) == ws
    decreases |ws|
  {
    if |ws| == 1 {
      SplitWord(ws[0]);
    } else if |ws| > 1 {
      var init, last := ws[..|ws| - 1], ws[|ws| - 1];
      WordsPrefix(init, ws);
      SplitJoin(init);
      SplitWord(last);
      JoinSnoc(ws);
      SplitAround(Join(init), ' ', last);
      assert init + [last] == ws;
    }
  }

  /** A prefix of a list of words is a list of words. */
  lemma WordsPrefix(init: seq<string>, ws: seq<string>)
    requires init <= ws && forall i :: 0 <= i < |ws| ==> IsWord(ws[i])
    ensures forall i :: 0 <= i < |init| ==> IsWord(init[i])
  {
    assert forall i :: 0 <= i < |init| ==> init[i] == ws[i];
  }

  lemma JoinSnoc(ws: seq<string>)
    requires |ws| > 1
    ensures Join(ws) == Join(ws[..|ws| - 1]) + [' '] + ws[|ws| - 1]
  {
  }
  /** `ws` with `x` appended to its last word. */
  function ExtendLast(ws: seq<string>, x: char): (r: seq<string>)
    requires ws != []
  {
    ws[..|ws| - 1] + [ws[|ws| - 1] + [x]]
  }

  /** Gluing onto the first word commutes with extending the last one. */
  lemma GlueExtend(y: char, ws: seq<string>, x: char)
    requires ws != []
    ensures Glue(y, ExtendLast(ws, x)) == ExtendLast(Glue(y, ws), x)
  {
    if |ws| > 1 {
      var e, g := ExtendLast(ws, x), Glue(y, ws);
      assert e[0] == ws[0];
      assert e[1..] == ws[1..|ws| - 1] + [ws[|ws| - 1] + [x]];
      assert g[..|g| - 1] == [[y] + ws[0]] + ws[1..|ws| - 1];
      assert g[|g| - 1] == ws[|ws| - 1];
      assert Glue(y, e) == [[y] + ws[0]] + (ws[1..|ws| - 1] + [ws[|ws| - 1] + [x]]);
      assert ExtendLast(g, x) == ([[y] + ws[0]] + ws[1..|ws| - 1]) + [ws[|ws| - 1] + [x]];
    } else {
      assert ExtendLast(ws, x) == [ws[0] + [x]];
      assert Glue(y, ws) == [[y] + ws[0]];
      assert Glue(y, [ws[0] + [x]]) == [[y] + (ws[0] + [x])];
      assert ExtendLast([[y] + ws[0]], x) == [([y] + ws[0]) + [x]];
      assert [y] + (ws[0] + [x]) == ([y] + ws[0]) + [x];
      assert Glue(y, ExtendLast(ws, x)) == [[y] + (ws[0] + [x])];
      assert ExtendLast(Glue(y, ws), x) == [([y] + ws[0]) + [x]];
    }
  }

  /** A character that is not white space, typed right after one that is not
      either, extends the last word. */
  lemma {:induction false} SplitSnocWord(t: string, x: char)
    requires t != [] && !IsSpace(t[|t| - 1]) && !IsSpace(x)
    ensures Split(t) != []
    ensures Split(t + [x]) == ExtendLast(Split(t), x)
    decreases |t|
  {
    SplitEmpty(t);
    var y, t' := t[0], t[1..];
    assert t == [y] + t' && t + [x] == [y] + (t' + [x]);
    if t' == [] {
      SplitConsNew(x, []);
      SplitConsGlue(y, [x]);
      SplitConsNew(y, []);
    } else {
      assert t'[|t'| - 1] == t[|t| - 1];
      SplitSnocWord(t', x);
      var ws' := Split(t');
      if IsSpace(y) {
        SplitConsSpace(y, t' + [x]);
        SplitConsSpace(y, t');
      } else if !IsSpace(t'[0]) {
        SplitConsGlue(y, t' + [x]);
        SplitConsGlue(y, t');
        GlueExtend(y, ws', x);
      } else {
        SplitConsNew(y, t' + [x]);
        SplitConsNew(y, t');
        assert ([[y]] + ws')[..|ws'|] == [[y]] + ws'[..|ws'| - 1];
      }
    }
  }

  /** A character that is not white space, typed at the start or after white
      space, is a new last word. */
  lemma SplitSnocNew(t: string, x: char)
    requires !IsSpace(x) && (t == [] || IsSpace(t[|t| - 1]))
    ensures Split(t + [x]) == Split(t) + [[x]]
  {
    if t == [] {
      SplitSingle(x);
      assert t + [x] == [x];
    } else {
      SplitSpaceThen(t[..|t| - 1], t[|t| - 1], x, t);
    }
  }

  lemma SplitSpaceThen(a: string, c: char, x: char, t: string)
    requires t == a + [c] && IsSpace(c) && !IsSpace(x)
    ensures Split(t + [x]) == Split(t) + [[x]]
  {
    assert t + [x] == a + [c] + [x];
    SplitAround(a, c, [x]);
    SplitTrailingSpace(a, c);
    SplitSingle(x);
  }

  lemma SplitSingle(x: char)
    requires !IsSpace(x)
    ensures Split([x]) == [[x]]
  {
    SplitConsNew(x, []);
    assert [x] + [] == [x];
  }
}
