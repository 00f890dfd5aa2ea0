/** The vocabulary and the character alphabet that `_prepare_data` builds
    (KeyboardLogic.py:44-55): the filtered word list `words`, the map
    `char_to_idx` from each distinct character (numbered 1..k in sorted
    order) and from `'<PAD>'` (numbered 0), its inverse `idx_to_char`, and
    `vocab_size`. */
module Vocabulary {
  import opened Text
  import opened Seqs

  /** `self.max_length`: the longest word kept. */
  const MaxLength: nat := 35

  /** A key of `char_to_idx`: one character, or the padding marker `'<PAD>'`. */
  datatype Token = Pad | Ch(c: char)

  /** The string a token stands for. */
  function TokenText(t: Token): (r: string)
    ensures t.Ch? ==> r == [t.c]
  {
    match t
    case Pad => "<PAD>"
    case Ch(c) => [c]
  }

  /** `[line.strip().lower() for line in f if line.strip()]`. */
  function ReadWords(lines: seq<string>): (ws: seq<string>)
    ensures |ws| <= |lines|
    ensures forall i :: 0 <= i < |ws| ==> IsTrimmed(ws[i])
    decreases |lines|
  {
    if lines == [] then []
    else
      var init := ReadWords(lines[..|lines| - 1]);
      var s := Strip(lines[|lines| - 1]);
      if s != [] then
        LowerTrimmed(s);
        SnocTrimmed(init, Lower(s));
        init + [Lower(s)]
      else init
  }

  /** Lower-casing a stripped, non-empty line keeps it stripped. */
  lemma LowerTrimmed(s: string)
    requires s != [] && !IsSpace(s[0]) && !IsSpace(s[|s| - 1])
    ensures IsTrimmed(Lower(s))
  {
    LowerKeepsSpace(s[0]);
    LowerKeepsSpace(s[|s| - 1]);
  }

  lemma SnocTrimmed(ws: seq<string>, w: string)
    requires forall i :: 0 <= i < |ws| ==> IsTrimmed(ws[i])
    requires IsTrimmed(w)
    ensures forall i :: 0 <= i < |ws + [w]| ==> IsTrimmed((ws + [w])[i])
  {
    forall i | 0 <= i < |ws + [w]| ensures IsTrimmed((ws + [w])[i]) {
      if i < |ws| { assert (ws + [w])[i] == ws[i]; }
    }
  }

  /** Non-empty, with no white space at either end. */
  predicate IsTrimmed(w: string) {
    w != [] && !IsSpace(w[0]) && !IsSpace(w[|w| - 1])
  }

  /** `2 <= len(w) <= self.max_length`. */
  predicate LengthOk(w: string) {
    2 <= |w| <= MaxLength
  }

  /** `[w for w in words if 2 <= len(w) <= self.max_length]`. */
  function FilterByLength(ws: seq<string>): (r: seq<string>)
    ensures forall i :: 0 <= i < |r| ==> LengthOk(r[i])
  {
    Filter(ws, LengthOk)
  }

  /** `self.words`, from the lines of the word file. */
  function LoadWords(lines: seq<string>): (ws: seq<string>)
    ensures forall i :: 0 <= i < |ws| ==> LengthOk(ws[i]) && IsTrimmed(ws[i])
  {
    var read := ReadWords(lines);
    var r := FilterByLength(read);
    assert forall i :: 0 <= i < |r| ==> r[i] in read;
    r
  }

  /** The word one line contributes, if any. */
  function LineWord(line: string): seq<string> {
    var s := Strip(line);
    if s != [] && LengthOk(Lower(s)) then [Lower(s)] else []
  }

  lemma {:induction false} ReadWordsAppend(a: seq<string>, b: seq<string>)
    ensures ReadWords(a + b) == ReadWords(a) + ReadWords(b)
    decreases |b|
  {
    if b == [] {
      assert a + b == a;
    } else {
      var b' := b[..|b| - 1];
      assert (a + b)[..|a + b| - 1] == a + b';
      assert (a + b)[|a + b| - 1] == b[|b| - 1];
      ReadWordsAppend(a, b');
    }
  }

  /** Loading is line by line: the words of `a + b` are the words of `a`
      followed by the words of `b`, so order and repeats are kept. */
  lemma LoadWordsAppend(a: seq<string>, b: seq<string>)
    ensures LoadWords(a + b) == LoadWords(a) + LoadWords(b)
  {
    ReadWordsAppend(a, b);
    FilterAppend(ReadWords(a), ReadWords(b), LengthOk);
  }

  /** One line yields its stripped, lower-cased text when that is not blank
      and has between 2 and 35 characters, and nothing otherwise. */
  lemma LoadWordsLine(line: string)
    ensures LoadWords([line]) == LineWord(line)
  {
    ReadWordsOne(line);
    var read := ReadWords([line]);
    if read != [] {
      FilterOne(read[0], LengthOk);
      assert read == [read[0]];
    }
  }

  lemma ReadWordsOne(line: string)
    ensures ReadWords([line]) == if Strip(line) != [] then [Lower(Strip(line))] else []
  {
    assert [line][..0] == [];
  }

  lemma FilterOne<T>(x: T, p: T -> bool)
    ensures Filter([x], p) == if p(x) then [x] else []
  {
    assert [x][..0] == [];
  }

  /** Loading is concatenation of what every line yields. */
  lemma {:induction false} LoadWordsLines(lines: seq<string>)
    ensures LoadWords(lines) == LinesWords(lines)
    decreases |lines|
  {
    if lines != [] {
      var init, last := lines[..|lines| - 1], lines[|lines| - 1];
      assert init + [last] == lines;
      LoadWordsAppend(init, [last]);
      LoadWordsLine(last);
      LoadWordsLines(init);
      assert LinesWords(lines) == LinesWords(init) + LineWord(last);
    }
  }

  /** The concatenation of LineWord over the lines, in order. */
  function LinesWords(lines: seq<string>): seq<string>
    decreases |lines|
  {
    if lines == [] then [] else LinesWords(lines[..|lines| - 1]) + LineWord(lines[|lines| - 1])
  }

  /** `''.join(words)`. */
  function Joined(ws: seq<string>): (r: string)
    decreases |ws|
  {
    if ws == [] then [] else Joined(ws[..|ws| - 1]) + ws[|ws| - 1]
  }

  /** A character occurs in the joined words exactly when it occurs in one
      of the words. */
  lemma {:induction false} JoinedMember(ws: seq<string>, c: char)
    ensures c in Joined(ws) <==> exists i :: 0 <= i < |ws| && c in ws[i]
    decreases |ws|
  {
    if ws != [] {
      var init := ws[..|ws| - 1];
      JoinedMember(init, c);
      assert forall i :: 0 <= i < |init| ==> init[i] == ws[i];
    }
  }

  /** Sorted with no repeats. */
  predicate StrictlyIncreasing(cs: seq<char>) {
    forall i, j :: 0 <= i < j < |cs| ==> cs[i] < cs[j]
  }

  /** `cs` with `c` put in its ordered place, unless already present. */
  function Insert(cs: seq<char>, c: char): (r: seq<char>)
    requires StrictlyIncreasing(cs)
    ensures StrictlyIncreasing(r)
    ensures forall x :: x in r <==> x in cs || x == c
    decreases |cs|
  {
    if cs == [] then [c]
    else if c < cs[0] then [c] + cs
    else if c == cs[0] then cs
    else
      var rest := Insert(cs[1..], c);
      assert forall x :: x in cs <==> x == cs[0] || x in cs[1..];
      assert forall k :: 0 <= k < |rest| ==> cs[0] < rest[k] by {
        forall k | 0 <= k < |rest| ensures cs[0] < rest[k] {
          assert rest[k] in rest;
          if rest[k] != c {
            var m :| 0 <= m < |cs[1..]| && cs[1..][m] == rest[k];
            assert cs[m + 1] == rest[k];
          }
        }
      }
      ConsIncreasing(cs[0], rest);
      [cs[0]] + rest
  }

  /** A sorted sequence stays sorted when a smaller element is put in front. */
  lemma ConsIncreasing(x: char, rest: seq<char>)
    requires StrictlyIncreasing(rest)
    requires forall k :: 0 <= k < |rest| ==> x < rest[k]
    ensures StrictlyIncreasing([x] + rest)
  {
    var r := [x] + rest;
    forall i, j | 0 <= i < j < |r| ensures r[i] < r[j] {
      assert r[j] == rest[j - 1];
      if i > 0 { assert r[i] == rest[i - 1]; }
    }
  }

  /** `sorted(set(s))`. */
  function SortedSet(s: string): (r: seq<char>)
    ensures StrictlyIncreasing(r)
    ensures forall x :: x in r <==> x in s
    decreases |s|
  {
    if s == [] then []
    else
      var init := s[..|s| - 1];
      assert forall x :: x in s <==> x in init || x == s[|s| - 1] by {
        assert s == init + [s[|s| - 1]];
      }
      Insert(SortedSet(init), s[|s| - 1])
  }

  /** `chars = sorted(set(''.join(words)))`. */
  function Alphabet(ws: seq<string>): (cs: seq<char>)
    ensures StrictlyIncreasing(cs)
    ensures forall c :: c in cs <==> c in Joined(ws)
  {
    SortedSet(Joined(ws))
  }

  /** The first element of a sorted sequence is its least. */
  lemma HeadIsLeast(a: seq<char>, x: char)
    requires StrictlyIncreasing(a) && x in a
    ensures a[0] <= x
  {
    var j :| 0 <= j < |a| && a[j] == x;
    assert j == 0 || a[0] < a[j];
  }

  lemma HeadIn(b: seq<char>)
    ensures b != [] ==> b[0] in b
  {
  }

  /** Sorting the distinct characters has only one possible outcome: two
      sorted, repeat-free sequences with the same characters are equal. */
  lemma {:induction false} SortedUnique(a: seq<char>, b: seq<char>)
    requires StrictlyIncreasing(a) && StrictlyIncreasing(b)
    requires forall x :: x in a <==> x in b
    ensures a == b
    decreases |a|
  {
    if a != [] {
      assert a[0] in b;
      HeadIsLeast(a, b[0]);
      HeadIsLeast(b, a[0]);
      assert a[0] == b[0];
      forall x ensures x in a[1..] <==> x in b[1..] {
        assert x in a[1..] <==> x in a && x != a[0] by {
          assert a == [a[0]] + a[1..];
          assert forall i :: 0 < i < |a| ==> a[0] < a[i];
        }
        assert x in b[1..] <==> x in b && x != b[0] by {
          assert b == [b[0]] + b[1..];
          assert forall i :: 0 < i < |b| ==> b[0] < b[i];
        }
      }
      SortedUnique(a[1..], b[1..]);
      assert a == [a[0]] + a[1..] && b == [b[0]] + b[1..];
    } else if b != [] {
      HeadIn(b);
      assert false;
    }
  }

  /** `char_to_idx`: the i-th character of `cs` maps to i+1, `'<PAD>'` to 0. */
  function CharIndex(cs: seq<char>): (m: map<Token, nat>)
    requires StrictlyIncreasing(cs)
  {
    Numbering(cs)[Pad := 0]
  }

  /** `{c: i+1 for i, c in enumerate(chars)}`. */
  function Numbering(cs: seq<char>): map<Token, nat>
    requires StrictlyIncreasing(cs)
  {
    map i | 0 <= i < |cs| :: Ch(cs[i]) := i + 1
  }

  /** `idx_to_char = {i: c for c, i in char_to_idx.items()}`. Because
      `char_to_idx` is injective, inverting it gives 0 to `'<PAD>'` and i to
      the i-th character; IndexCharInverts proves that this is its inverse. */
  function IndexChar(cs: seq<char>): (m: map<nat, Token>)
  {
    map i | 0 <= i <= |cs| :: TokenAt(cs, i)
  }

  /** The token numbered `i`. */
  function TokenAt(cs: seq<char>, i: nat): Token
    requires i <= |cs|
  {
    if i == 0 then Pad else Ch(cs[i - 1])
  }

  /** The numbering: `char_to_idx` has exactly `'<PAD>'` and the characters
      of `cs` as keys; character number i (from 0) gets i+1, `'<PAD>'` gets 0. */
  lemma CharIndexAt(cs: seq<char>)
    requires StrictlyIncreasing(cs)
    ensures Pad in CharIndex(cs) && CharIndex(cs)[Pad] == 0
    ensures forall i :: 0 <= i < |cs| ==> Ch(cs[i]) in CharIndex(cs) && CharIndex(cs)[Ch(cs[i])] == i + 1
    ensures forall t :: t in CharIndex(cs) ==> t == Pad || t.c in cs
  {
    forall i | 0 <= i < |cs| ensures Ch(cs[i]) in Numbering(cs) && Numbering(cs)[Ch(cs[i])] == i + 1 {
      NumberedAt(cs, i);
    }
  }

  /** The entry of character number i of a sorted sequence. */
  lemma NumberedAt(cs: seq<char>, i: nat)
    requires StrictlyIncreasing(cs) && i < |cs|
    ensures Ch(cs[i]) in Numbering(cs) && Numbering(cs)[Ch(cs[i])] == i + 1
  {
    var inner := Numbering(cs);
    assert Ch(cs[i]) in inner;
    var k :| 0 <= k < |cs| && Ch(cs[k]) == Ch(cs[i]) && inner[Ch(cs[i])] == k + 1;
  }

  /** `idx_to_char` is defined on the indices 0..len(chars). */
  lemma IndexCharAt(cs: seq<char>)
    ensures forall i :: i in IndexChar(cs) <==> 0 <= i <= |cs|
    ensures forall i :: 0 <= i <= |cs| ==> IndexChar(cs)[i] == TokenAt(cs, i)
  {
  }

  /** `idx_to_char` undoes `char_to_idx` and the other way round, and is
      defined on exactly the indices 0..len(chars). */
  lemma IndexCharInverts(cs: seq<char>)
    requires StrictlyIncreasing(cs)
    ensures forall t :: t in CharIndex(cs) ==> CharIndex(cs)[t] in IndexChar(cs) && IndexChar(cs)[CharIndex(cs)[t]] == t
    ensures forall i :: i in IndexChar(cs) ==> IndexChar(cs)[i] in CharIndex(cs) && CharIndex(cs)[IndexChar(cs)[i]] == i
    ensures forall i :: i in IndexChar(cs) <==> 0 <= i <= |cs|
  {
    CharIndexAt(cs);
    IndexCharAt(cs);
    var m, inv := CharIndex(cs), IndexChar(cs);
    forall t | t in m ensures m[t] in inv && inv[m[t]] == t {
      if t != Pad {
        var i :| 0 <= i < |cs| && cs[i] == t.c;
        assert m[t] == i + 1;
        assert TokenAt(cs, i + 1) == t;
      }
    }
    forall i | i in inv ensures inv[i] in m && m[inv[i]] == i {
      if i > 0 {
        assert inv[i] == Ch(cs[i - 1]);
      }
    }
  }

  /** The tokens standing for the characters of `cs`. */
  function CharTokens(cs: seq<char>): set<Token> {
    set c | c in cs :: Ch(c)
  }

  lemma {:induction false} CharTokensCard(cs: seq<char>)
    requires StrictlyIncreasing(cs)
    ensures |CharTokens(cs)| == |cs|
    decreases |cs|
  {
    if cs != [] {
      var init, last := cs[..|cs| - 1], cs[|cs| - 1];
      assert CharTokens(cs) == CharTokens(init) + {Ch(last)} by {
        assert cs == init + [last];
      }
      assert Ch(last) !in CharTokens(init) by {
        assert forall i :: 0 <= i < |init| ==> init[i] < last;
      }
      CharTokensCard(init);
    }
  }

  /** `vocab_size == len(char_to_idx)` is the number of distinct characters
      plus one, for `'<PAD>'`. */
  lemma VocabSizeIs(cs: seq<char>)
    requires StrictlyIncreasing(cs)
    ensures |CharIndex(cs)| == |cs| + 1
  {
    CharIndexAt(cs);
    var m := CharIndex(cs);
    assert m.Keys == CharTokens(cs) + {Pad};
    CharTokensCard(cs);
  }
}
