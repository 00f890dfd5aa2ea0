/** The training data that `_prepare_data` builds (KeyboardLogic.py:44-71):
    every word of length L gives the L-1 pairs (`word[:i]`, `word`) for
    1 <= i < L, both sides encoded through `char_to_idx` and padded with
    index 0 to `max_seq_len`, the longest row. The conversion to tensors
    (KeyboardLogic.py:72-73) is left out. */
module TrainingData {
  import opened Vocabulary

  /** Why preparing the data fails: `max()` over no rows raises ValueError. */
  datatype DataError = NoTrainingPairs

  datatype Result<T> = Ok(value: T) | Err(error: DataError)

  /** Every character of `s` is a key of `char_to_idx`. */
  predicate Known(charToIdx: map<Token, nat>, s: string) {
    forall i :: 0 <= i < |s| ==> Ch(s[i]) in charToIdx
  }

  /** `[char_to_idx[c] for c in s]`. */
  function Encode(charToIdx: map<Token, nat>, s: string): (r: seq<nat>)
    requires Known(charToIdx, s)
    ensures |r| == |s|
  {
    seq(|s|, i requires 0 <= i < |s| => charToIdx[Ch(s[i])])
  }

  /** `[0] * k`. */
  function Zeros(k: nat): (r: seq<nat>)
    ensures |r| == k && forall i :: 0 <= i < k ==> r[i] == 0
  {
    seq(k, _ => 0)
  }

  /** `row + [0] * (len - len(row))`; a negative count repeats nothing. */
  function PadRow(row: seq<nat>, len: nat): (r: seq<nat>)
    ensures |row| <= len ==> |r| == len
    ensures |row| >= len ==> r == row
    ensures r[..|row|] == row
    ensures forall i :: |row| <= i < |r| ==> r[i] == 0
  {
    if |row| < len then row + Zeros(len - |row|) else row
  }

  /** The pairs one word contributes: for i in range(1, len(word)),
      (word[:i], word). */
  function PairsOf(w: string): (ps: seq<(string, string)>)
  {
    if w == [] then [] else seq(|w| - 1, k requires 0 <= k < |w| - 1 => (w[..k + 1], w))
  }

  /** The pairs of all words, word by word in list order. */
  function AllPairs(ws: seq<string>): (r: seq<(string, string)>)
    decreases |ws|
  {
    if ws == [] then [] else AllPairs(ws[..|ws| - 1]) + PairsOf(ws[|ws| - 1])
  }

  /** sum(len(w) - 1 for w in ws), where a word of length 0 counts 0. */
  function PairCount(ws: seq<string>): nat
    decreases |ws|
  {
    if ws == [] then 0
    else
      var w := ws[|ws| - 1];
      PairCount(ws[..|ws| - 1]) + (if w == [] then 0 else |w| - 1)
  }

  /** Both sides of every pair can be encoded. */
  predicate AllKnown(charToIdx: map<Token, nat>, ps: seq<(string, string)>) {
    forall k :: 0 <= k < |ps| ==> Known(charToIdx, ps[k].0) && Known(charToIdx, ps[k].1)
  }

  /** The rows of `self.X` before padding. */
  function Inputs(charToIdx: map<Token, nat>, ps: seq<(string, string)>): (rows: seq<seq<nat>>)
    requires AllKnown(charToIdx, ps)
    ensures |rows| == |ps|
  {
    seq(|ps|, k requires 0 <= k < |ps| => Encode(charToIdx, ps[k].0))
  }

  /** The rows of `self.y` before padding. */
  function Targets(charToIdx: map<Token, nat>, ps: seq<(string, string)>): (rows: seq<seq<nat>>)
    requires AllKnown(charToIdx, ps)
    ensures |rows| == |ps|
  {
    seq(|ps|, k requires 0 <= k < |ps| => Encode(charToIdx, ps[k].1))
  }

  /** `max(len(seq) for seq in rows)` for a non-empty list of rows. */
  function MaxLen(rows: seq<seq<nat>>): (m: nat)
    requires rows != []
    ensures forall k :: 0 <= k < |rows| ==> |rows[k]| <= m
    ensures exists k :: 0 <= k < |rows| && |rows[k]| == m
    decreases |rows|
  {
    if |rows| == 1 then |rows[0]|
    else
      var m := MaxLen(rows[..|rows| - 1]);
      var last := |rows[|rows| - 1]|;
      assert forall k :: 0 <= k < |rows| - 1 ==> rows[..|rows| - 1][k] == rows[k];
      if m < last then last else m
  }

  /** `[seq + [0] * (len - len(seq)) for seq in rows]`. */
  function PadRows(rows: seq<seq<nat>>, len: nat): (r: seq<seq<nat>>)
    ensures |r| == |rows|
  {
    seq(|rows|, k requires 0 <= k < |rows| => PadRow(rows[k], len))
  }

  /** Every non-zero index of `row` is a key of `idx_to_char`. */
  predicate Decodable(idxToChar: map<nat, Token>, row: seq<nat>) {
    forall i :: 0 <= i < |row| && row[i] != 0 ==> row[i] in idxToChar
  }

  /** `''.join([idx_to_char[idx] for idx in row if idx != 0])`: every index 0
      is dropped, wherever it occurs. */
  function Decode(idxToChar: map<nat, Token>, row: seq<nat>): (s: string)
    requires Decodable(idxToChar, row)
    decreases |row|
  {
    if row == [] then []
    else
      var last := row[|row| - 1];
      Decode(idxToChar, row[..|row| - 1]) + (if last == 0 then [] else TokenText(idxToChar[last]))
  }

  /** What `_prepare_data` leaves in the object, short of the tensors. */
  datatype Corpus = Corpus(
    words: seq<string>,
    charToIdx: map<Token, nat>,
    idxToChar: map<nat, Token>,
    vocabSize: nat,
    inputs: seq<seq<nat>>,
    targets: seq<seq<nat>>,
    maxSeqLen: nat)

  /** Every `idx_to_char` lookup of an index below `vocab_size` succeeds. */
  predicate IndexTotal(c: Corpus) {
    forall i :: 0 <= i < c.vocabSize ==> i in c.idxToChar
  }

  /** The data prepared from an already loaded word list: the specification
      that PrepareData is proved against. */
  function Build(ws: seq<string>): (r: Result<Corpus>)
  {
    var chars := Alphabet(ws);
    var charToIdx := CharIndex(chars);
    var ps := AllPairs(ws);
    PairsKnown(ws);
    if ps == [] then Err(NoTrainingPairs)
    else
      var len := MaxLen(Targets(charToIdx, ps));
      Ok(Corpus(ws, charToIdx, IndexChar(chars), |charToIdx|,
                PadRows(Inputs(charToIdx, ps), len), PadRows(Targets(charToIdx, ps), len), len))
  }

  /** `_prepare_data`, from the lines of the word file. */
  method PrepareData(lines: seq<string>) returns (r: Result<Corpus>)
    ensures r == Build(LoadWords(lines))
  {
    var words := LoadWords(lines);
    var chars := Alphabet(words);
    var charToIdx := CharIndex(chars);
    var idxToChar := IndexChar(chars);
    var vocabSize := |charToIdx|;
    WordsKnown(words);
    var xs, ys := GeneratePairs(words, charToIdx);
    BuildFrom(words, xs, ys);
    if ys == [] {
      return Err(NoTrainingPairs);
    }
    var maxSeqLen := MaxLen(ys);
    xs := PadRows(xs, maxSeqLen);
    ys := PadRows(ys, maxSeqLen);
    r := Ok(Corpus(words, charToIdx, idxToChar, vocabSize, xs, ys, maxSeqLen));
  }

  /** The pair-generating loops of `_prepare_data`: for every word and every
      i in range(1, len(word)), append the encodings of `word[:i]` to `xs`
      and of `word` to `ys`. */
  method GeneratePairs(words: seq<string>, charToIdx: map<Token, nat>)
    returns (xs: seq<seq<nat>>, ys: seq<seq<nat>>)
    requires forall j :: 0 <= j < |words| ==> Known(charToIdx, words[j])
    ensures AllKnown(charToIdx, AllPairs(words))
    ensures xs == Inputs(charToIdx, AllPairs(words))
    ensures ys == Targets(charToIdx, AllPairs(words))
  {
    xs, ys := [], [];
    ghost var ps: seq<(string, string)> := [];
    for j := 0 to |words|
      invariant ps == AllPairs(words[..j])
      invariant AllKnown(charToIdx, ps)
      invariant xs == Inputs(charToIdx, ps) && ys == Targets(charToIdx, ps)
    {
      var word := words[j];
      ghost var done := ps;
      var i := 1;
      while i < |word|
        invariant 1 <= i && (i <= |word| || i == 1)
        invariant ps == done + PairsOf(word)[..i - 1]
        invariant AllKnown(charToIdx, ps)
        invariant xs == Inputs(charToIdx, ps) && ys == Targets(charToIdx, ps)
      {
        var prefix := word[..i];
        KnownPrefix(charToIdx, word, i);
        var xSeq := Encode(charToIdx, prefix);
        var ySeq := Encode(charToIdx, word);
        PairStep(charToIdx, done, word, i, ps);
        ps := ps + [(prefix, word)];
        xs := xs + [xSeq];
        ys := ys + [ySeq];
        i := i + 1;
      }
      WordDone(words, j, done, i, ps);
    }
    assert words[..|words|] == words;
  }

  /** One turn of the inner loop: the pair (word[:i], word) and its rows
      are appended. */
  lemma PairStep(m: map<Token, nat>, done: seq<(string, string)>, word: string, i: nat,
                 ps: seq<(string, string)>)
    requires Known(m, word) && 1 <= i < |word|
    requires ps == done + PairsOf(word)[..i - 1] && AllKnown(m, ps)
    ensures ps + [(word[..i], word)] == done + PairsOf(word)[..i]
    ensures AllKnown(m, ps + [(word[..i], word)])
    ensures Inputs(m, ps + [(word[..i], word)]) == Inputs(m, ps) + [Encode(m, word[..i])]
    ensures Targets(m, ps + [(word[..i], word)]) == Targets(m, ps) + [Encode(m, word)]
  {
    KnownPrefix(m, word, i);
    RowsAppend(m, ps, (word[..i], word));
    PairsOfStep(word, i);
  }

  /** The end of the inner loop: all pairs of the words so far. */
  lemma WordDone(words: seq<string>, j: nat, done: seq<(string, string)>, i: nat,
                 ps: seq<(string, string)>)
    requires j < |words| && done == AllPairs(words[..j])
    requires 1 <= i && (i <= |words[j]| || i == 1) && !(i < |words[j]|)
    requires ps == done + PairsOf(words[j])[..i - 1]
    ensures ps == AllPairs(words[..j + 1])
  {
    var word := words[j];
    if word != [] { PairsOfStep(word, |word|); }
    AllPairsSnoc(words[..j], word);
    assert words[..j + 1] == words[..j] + [word];
  }

  /** Build in terms of the unpadded rows. */
  lemma BuildFrom(ws: seq<string>, xs: seq<seq<nat>>, ys: seq<seq<nat>>)
    requires AllKnown(CharIndex(Alphabet(ws)), AllPairs(ws))
    requires xs == Inputs(CharIndex(Alphabet(ws)), AllPairs(ws))
    requires ys == Targets(CharIndex(Alphabet(ws)), AllPairs(ws))
    ensures ys == [] ==> Build(ws) == Err(NoTrainingPairs)
    ensures ys != [] ==> Build(ws) == Ok(Corpus(ws, CharIndex(Alphabet(ws)), IndexChar(Alphabet(ws)),
      |CharIndex(Alphabet(ws))|, PadRows(xs, MaxLen(ys)), PadRows(ys, MaxLen(ys)), MaxLen(ys)))
  {
  }

  /** A prefix of a known string is known. */
  lemma KnownPrefix(charToIdx: map<Token, nat>, w: string, i: nat)
    requires Known(charToIdx, w) && i <= |w|
    ensures Known(charToIdx, w[..i])
  {
    assert forall k :: 0 <= k < i ==> w[..i][k] == w[k];
  }

  /** The first i pairs of a word, one more than the first i-1. */
  lemma PairsOfStep(w: string, i: nat)
    requires 1 <= i <= |w|
    ensures i < |w| ==> PairsOf(w)[..i] == PairsOf(w)[..i - 1] + [(w[..i], w)]
    ensures i == |w| ==> PairsOf(w)[..i - 1] == PairsOf(w)
  {
  }

  /** Every character of every word is a key of `char_to_idx`. */
  lemma WordsKnown(ws: seq<string>)
    ensures forall j :: 0 <= j < |ws| ==> Known(CharIndex(Alphabet(ws)), ws[j])
  {
    var cs := Alphabet(ws);
    CharIndexAt(cs);
    forall j, i | 0 <= j < |ws| && 0 <= i < |ws[j]| ensures Ch(ws[j][i]) in CharIndex(cs) {
      JoinedMember(ws, ws[j][i]);
      var k :| 0 <= k < |cs| && cs[k] == ws[j][i];
    }
  }

  /** Every pair of a word is a strict, non-empty prefix of it, and the word. */
  lemma PairsOfAt(w: string)
    ensures |PairsOf(w)| == if w == [] then 0 else |w| - 1
    ensures forall k :: 0 <= k < |PairsOf(w)| ==> PairsOf(w)[k] == (w[..k + 1], w)
  {
  }

  /** A pair of AllPairs(ws) comes from some word of ws and is one of that
      word's strict, non-empty prefixes. */
  lemma {:induction false} AllPairsFrom(ws: seq<string>, k: nat)
    requires k < |AllPairs(ws)|
    ensures AllPairs(ws)[k].1 in ws
    ensures 1 <= |AllPairs(ws)[k].0| < |AllPairs(ws)[k].1|
    ensures AllPairs(ws)[k].0 == AllPairs(ws)[k].1[..|AllPairs(ws)[k].0|]
    decreases |ws|
  {
    var init := ws[..|ws| - 1];
    var w := ws[|ws| - 1];
    var left := AllPairs(init);
    if k < |left| {
      AllPairsFrom(init, k);
      assert AllPairs(ws)[k] == left[k];
    } else {
      PairsOfAt(w);
      assert AllPairs(ws)[k] == PairsOf(w)[k - |left|];
    }
  }

  /** Every strict, non-empty prefix of every word is paired with it. */
  lemma {:induction false} AllPairsComplete(ws: seq<string>, j: nat, i: nat)
    requires j < |ws| && 1 <= i < |ws[j]|
    ensures (ws[j][..i], ws[j]) in AllPairs(ws)
    decreases |ws|
  {
    var init := ws[..|ws| - 1];
    PairsOfAt(ws[|ws| - 1]);
    if j < |ws| - 1 {
      AllPairsComplete(init, j, i);
      assert init[j] == ws[j];
    } else {
      assert PairsOf(ws[j])[i - 1] == (ws[j][..i], ws[j]);
    }
  }

  /** A word of length L gives L-1 pairs, so there are sum(len(w) - 1). */
  lemma {:induction false} AllPairsCount(ws: seq<string>)
    ensures |AllPairs(ws)| == PairCount(ws)
    decreases |ws|
  {
    if ws != [] {
      AllPairsCount(ws[..|ws| - 1]);
      PairsOfAt(ws[|ws| - 1]);
    }
  }

  /** The pairs of a word list extended by one word. */
  lemma AllPairsSnoc(ws: seq<string>, w: string)
    ensures AllPairs(ws + [w]) == AllPairs(ws) + PairsOf(w)
  {
    assert (ws + [w])[..|ws|] == ws;
  }

  /** Both sides of every pair are made of known characters. */
  lemma PairsKnown(ws: seq<string>)
    ensures AllKnown(CharIndex(Alphabet(ws)), AllPairs(ws))
  {
    WordsKnown(ws);
    var m := CharIndex(Alphabet(ws));
    forall k | 0 <= k < |AllPairs(ws)|
      ensures Known(m, AllPairs(ws)[k].0) && Known(m, AllPairs(ws)[k].1)
    {
      AllPairsFrom(ws, k);
      var p := AllPairs(ws)[k];
      var j :| 0 <= j < |ws| && ws[j] == p.1;
      assert forall i :: 0 <= i < |p.0| ==> p.0[i] == p.1[i];
    }
  }

  /** Encoding one more pair adds one row on each side. */
  lemma RowsAppend(charToIdx: map<Token, nat>, ps: seq<(string, string)>, p: (string, string))
    requires AllKnown(charToIdx, ps) && Known(charToIdx, p.0) && Known(charToIdx, p.1)
    ensures AllKnown(charToIdx, ps + [p])
    ensures Inputs(charToIdx, ps + [p]) == Inputs(charToIdx, ps) + [Encode(charToIdx, p.0)]
    ensures Targets(charToIdx, ps + [p]) == Targets(charToIdx, ps) + [Encode(charToIdx, p.1)]
  {
    assert forall k :: 0 <= k < |ps| ==> (ps + [p])[k] == ps[k];
    assert (ps + [p])[|ps|] == p;
  }

  /** A real character never gets the padding index 0, and every index of
      `char_to_idx` is below `vocab_size`. */
  lemma CharIndexRange(cs: seq<char>, t: Token)
    requires StrictlyIncreasing(cs) && t in CharIndex(cs)
    ensures t != Pad ==> CharIndex(cs)[t] != 0
    ensures CharIndex(cs)[t] < |CharIndex(cs)|
  {
    CharIndexAt(cs);
    VocabSizeIs(cs);
    if t != Pad {
      var i :| 0 <= i < |cs| && cs[i] == t.c;
      assert t == Ch(cs[i]);
    }
  }

  /** Decoding works row piece by row piece. */
  lemma {:induction false} DecodeAppend(idxToChar: map<nat, Token>, a: seq<nat>, b: seq<nat>)
    requires Decodable(idxToChar, a) && Decodable(idxToChar, b)
    ensures Decodable(idxToChar, a + b)
    ensures Decode(idxToChar, a + b) == Decode(idxToChar, a) + Decode(idxToChar, b)
    decreases |b|
  {
    assert Decodable(idxToChar, a + b) by {
      forall i | 0 <= i < |a + b| && (a + b)[i] != 0 ensures (a + b)[i] in idxToChar {
        if i >= |a| { assert (a + b)[i] == b[i - |a|]; }
      }
    }
    if b != [] {
      var b' := b[..|b| - 1];
      assert Decodable(idxToChar, b') by {
        assert forall i :: 0 <= i < |b'| ==> b'[i] == b[i];
      }
      assert (a + b)[..|a + b| - 1] == a + b';
      DecodeAppend(idxToChar, a, b');
    } else {
      assert a + b == a;
    }
  }

  /** Padding decodes to nothing. */
  lemma {:induction false} DecodeZeros(idxToChar: map<nat, Token>, k: nat)
    ensures Decodable(idxToChar, Zeros(k)) && Decode(idxToChar, Zeros(k)) == []
    decreases k
  {
    if k > 0 {
      assert Zeros(k)[..k - 1] == Zeros(k - 1);
      DecodeZeros(idxToChar, k - 1);
    }
  }

  /** `idx_to_char` undoes `char_to_idx`, and no character has index 0. */
  predicate Inverts(charToIdx: map<Token, nat>, idxToChar: map<nat, Token>) {
    forall t :: t in charToIdx ==>
      charToIdx[t] in idxToChar && idxToChar[charToIdx[t]] == t && (t.Ch? ==> charToIdx[t] != 0)
  }

  lemma AlphabetInverts(cs: seq<char>)
    requires StrictlyIncreasing(cs)
    ensures Inverts(CharIndex(cs), IndexChar(cs))
  {
    IndexCharInverts(cs);
    forall t | t in CharIndex(cs) ensures t.Ch? ==> CharIndex(cs)[t] != 0 {
      CharIndexRange(cs, t);
    }
  }

  /** Decoding undoes encoding: every real character has an index of at
      least 1, which `idx_to_char` maps back to it. */
  lemma {:induction false} DecodeEncode(m: map<Token, nat>, inv: map<nat, Token>, s: string)
    requires Inverts(m, inv) && Known(m, s)
    ensures Decodable(inv, Encode(m, s))
    ensures Decode(inv, Encode(m, s)) == s
    decreases |s|
  {
    var e := Encode(m, s);
    assert Decodable(inv, e);
    if s != [] {
      var init, last := s[..|s| - 1], s[|s| - 1];
      KnownPrefix(m, s, |s| - 1);
      DecodeEncode(m, inv, init);
      assert e[..|e| - 1] == Encode(m, init);
      assert e[|e| - 1] == m[Ch(last)] != 0;
      assert inv[m[Ch(last)]] == Ch(last);
      assert s == init + [last];
    }
  }

  /** A padded row decodes to the string it encodes, at any padded length. */
  lemma DecodePadded(m: map<Token, nat>, inv: map<nat, Token>, s: string, len: nat)
    requires Inverts(m, inv) && Known(m, s)
    ensures Decodable(inv, PadRow(Encode(m, s), len))
    ensures Decode(inv, PadRow(Encode(m, s), len)) == s
  {
    var e := Encode(m, s);
    DecodeEncode(m, inv, s);
    if |e| < len {
      DecodeZeros(inv, len - |e|);
      DecodeAppend(inv, e, Zeros(len - |e|));
    }
  }

  /** Preparing the data fails exactly when no word has two or more
      characters; for a loaded word list, exactly when it is empty. */
  lemma BuildFails(ws: seq<string>)
    ensures Build(ws).Err? <==> PairCount(ws) == 0
    ensures (forall j :: 0 <= j < |ws| ==> LengthOk(ws[j])) ==> (Build(ws).Err? <==> ws == [])
  {
    AllPairsCount(ws);
    if ws != [] && forall j :: 0 <= j < |ws| ==> LengthOk(ws[j]) {
      PairCountPositive(ws);
    }
  }

  lemma {:induction false} PairCountPositive(ws: seq<string>)
    requires ws != [] && forall j :: 0 <= j < |ws| ==> LengthOk(ws[j])
    ensures PairCount(ws) >= |ws|
    decreases |ws|
  {
    if |ws| > 1 {
      PairCountPositive(ws[..|ws| - 1]);
    }
  }

  /** `max_seq_len` is the length of the longest word that yields a pair. */
  lemma BuildMaxSeqLen(ws: seq<string>)
    requires Build(ws).Ok?
    ensures forall j :: 0 <= j < |ws| && |ws[j]| >= 2 ==> |ws[j]| <= Build(ws).value.maxSeqLen
    ensures exists j :: 0 <= j < |ws| && |ws[j]| == Build(ws).value.maxSeqLen
  {
    var m := CharIndex(Alphabet(ws));
    var ps := AllPairs(ws);
    PairsKnown(ws);
    var ys := Targets(m, ps);
    var len := Build(ws).value.maxSeqLen;
    assert len == MaxLen(ys);
    forall j | 0 <= j < |ws| && |ws[j]| >= 2 ensures |ws[j]| <= len {
      AllPairsComplete(ws, j, 1);
      var k :| 0 <= k < |ps| && ps[k] == (ws[j][..1], ws[j]);
      assert |ys[k]| == |ws[j]|;
    }
    var k :| 0 <= k < |ys| && |ys[k]| == len;
    AllPairsFrom(ws, k);
    var j :| 0 <= j < |ws| && ws[j] == ps[k].1;
  }

  /** The shape of `self.X` and `self.y`: sum(len(w) - 1) rows each, every
      row exactly `max_seq_len` long. */
  lemma BuildShape(ws: seq<string>)
    requires Build(ws).Ok?
    ensures |Build(ws).value.inputs| == |Build(ws).value.targets| == PairCount(ws)
    ensures forall k :: 0 <= k < PairCount(ws) ==>
      |Build(ws).value.inputs[k]| == Build(ws).value.maxSeqLen && |Build(ws).value.targets[k]| == Build(ws).value.maxSeqLen
  {
    AllPairsCount(ws);
    var c := Build(ws).value;
    var m := CharIndex(Alphabet(ws));
    var ps := AllPairs(ws);
    PairsKnown(ws);
    var ys := Targets(m, ps);
    forall k | 0 <= k < |ps| ensures |c.inputs[k]| == c.maxSeqLen && |c.targets[k]| == c.maxSeqLen {
      AllPairsFrom(ws, k);
      assert |ys[k]| <= c.maxSeqLen;
      assert |Inputs(m, ps)[k]| < |ys[k]|;
    }
  }

  /** Row k of `self.y` decodes, dropping its zeros, to the word of pair k,
      and row k of `self.X` to its prefix. */
  lemma BuildDecodes(ws: seq<string>, k: nat)
    requires Build(ws).Ok? && k < |AllPairs(ws)|
    ensures Decodable(Build(ws).value.idxToChar, Build(ws).value.inputs[k])
    ensures Decodable(Build(ws).value.idxToChar, Build(ws).value.targets[k])
    ensures Decode(Build(ws).value.idxToChar, Build(ws).value.inputs[k]) == AllPairs(ws)[k].0
    ensures Decode(Build(ws).value.idxToChar, Build(ws).value.targets[k]) == AllPairs(ws)[k].1
  {
    var c := Build(ws).value;
    var cs := Alphabet(ws);
    PairsKnown(ws);
    var p := AllPairs(ws)[k];
    AlphabetInverts(cs);
    DecodePadded(c.charToIdx, c.idxToChar, p.0, c.maxSeqLen);
    DecodePadded(c.charToIdx, c.idxToChar, p.1, c.maxSeqLen);
  }

  /** The alphabet maps of the prepared data: `vocab_size` is the number of
      distinct characters plus one, `idx_to_char` is defined on every index
      below it and undoes `char_to_idx`. */
  lemma BuildVocabulary(ws: seq<string>)
    requires Build(ws).Ok?
    ensures Build(ws).value.vocabSize == |Alphabet(ws)| + 1
    ensures IndexTotal(Build(ws).value)
    ensures forall t :: t in Build(ws).value.charToIdx ==>
      Build(ws).value.idxToChar[Build(ws).value.charToIdx[t]] == t
  {
    var cs := Alphabet(ws);
    VocabSizeIs(cs);
    IndexCharInverts(cs);
  }
}
