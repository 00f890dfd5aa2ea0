/** The suggestion engine, `_predict_words` (KeyboardLogic.py:144-165). The
    trained network and its per-position argmax (KeyboardLogic.py:147-153)
    are an arbitrary function from the padded index sequence of the prefix
    to a sequence of indices; everything after that is modelled exactly. */
module Suggestions {
  import opened Seqs
  import opened TrainingData

  /** `output.argmax(dim=2).squeeze().tolist()` after a forward pass of the
      trained network, as a function of the padded input indices. */
  type Predictor = seq<nat> -> seq<nat>

  /** The network's output layer has `vocab_size` units, so every argmax is
      an index below `vocab_size`. */
  ghost predicate InRange(model: Predictor, vocabSize: nat) {
    forall x, i :: 0 <= i < |model(x)| ==> model(x)[i] < vocabSize
  }

  /** `valid_words = [w for w in self.words if w.startswith(prefix)]`. */
  function Candidates(words: seq<string>, prefix: string): (valid: seq<string>)
    ensures forall i :: 0 <= i < |valid| ==> valid[i] in words && prefix <= valid[i]
  {
    Filter(words, w => prefix <= w)
  }

  /** The prediction, put first when it is itself a candidate. */
  function Lead(pred: string, valid: seq<string>): (r: seq<string>) {
    if pred in valid then [pred] else []
  }

  /** The first n of: the prediction if it is a candidate, then the
      candidates in order, each word once. */
  function Ranked(pred: string, valid: seq<string>, n: nat): (r: seq<string>) {
    Take(Dedup(Lead(pred, valid) + valid), n)
  }

  /** What `_predict_words(prefix, n)` returns: the specification the method
      PredictWords is proved against. */
  function Suggest(c: Corpus, model: Predictor, prefix: string, n: nat): (r: seq<string>)
    requires IndexTotal(c) && InRange(model, c.vocabSize)
  {
    if prefix == [] || !Known(c.charToIdx, prefix) then []
    else
      var x := PadRow(Encode(c.charToIdx, prefix), c.maxSeqLen);
      PredictionDecodable(c, model, x);
      Ranked(Decode(c.idxToChar, model(x)), Candidates(c.words, prefix), n)
  }

  /** `_predict_words`; `n` defaults to 3. */
  method PredictWords(c: Corpus, model: Predictor, prefix: string, n: nat := 3)
    returns (suggestions: seq<string>)
    requires IndexTotal(c) && InRange(model, c.vocabSize)
    ensures suggestions == Suggest(c, model, prefix, n)
    ensures prefix == [] || !Known(c.charToIdx, prefix) ==> suggestions == []
    ensures |suggestions| <= n && NoDuplicates(suggestions)
    ensures forall i :: 0 <= i < |suggestions| ==> suggestions[i] in c.words && prefix <= suggestions[i]
  {
    SuggestBounds(c, model, prefix, n);
    if prefix == [] || !Known(c.charToIdx, prefix) {
      return [];
    }
    SuggestUnfold(c, model, prefix, n);
    var x := PadRow(Encode(c.charToIdx, prefix), c.maxSeqLen);
    var predIndices := model(x);
    PredictionDecodable(c, model, x);
    var predWord := Decode(c.idxToChar, predIndices);
    var validWords := Candidates(c.words, prefix);
    suggestions := [];
    if predWord in validWords && predWord !in suggestions {
      suggestions := suggestions + [predWord];
    }
    suggestions := RankLoop(predWord, validWords, n, suggestions);
  }

  /** The loop of `_predict_words` over the candidates: each word not yet
      collected is appended, stopping once n are collected, and the list is
      cut to n. */
  method RankLoop(predWord: string, validWords: seq<string>, n: nat, start: seq<string>)
    returns (suggestions: seq<string>)
    requires start == Lead(predWord, validWords)
    ensures suggestions == Ranked(predWord, validWords, n)
  {
    ghost var lead := start;
    suggestions := start;
    DedupLead(predWord, validWords);
    assert lead + validWords[..0] == lead;
    var i := 0;
    while i < |validWords|
      invariant 0 <= i <= |validWords|
      invariant suggestions == Dedup(lead + validWords[..i])
    {
      var w := validWords[i];
      DedupStep(lead, validWords, i);
      if w !in suggestions {
        suggestions := suggestions + [w];
      }
      i := i + 1;
      if |suggestions| >= n {
        break;
      }
    }
    LoopExit(lead, validWords, i, n, suggestions);
    suggestions := Take(suggestions, n);
  }

  /** The query for a non-empty prefix within the alphabet. */
  lemma SuggestUnfold(c: Corpus, model: Predictor, prefix: string, n: nat)
    requires IndexTotal(c) && InRange(model, c.vocabSize)
    requires prefix != [] && Known(c.charToIdx, prefix)
    ensures Suggest(c, model, prefix, n) ==
      Ranked(Decode(c.idxToChar, model(PadRow(Encode(c.charToIdx, prefix), c.maxSeqLen))), Candidates(c.words, prefix), n)
  {
  }

  /** Every non-zero index the network yields has an entry in `idx_to_char`. */
  lemma PredictionDecodable(c: Corpus, model: Predictor, x: seq<nat>)
    requires IndexTotal(c) && InRange(model, c.vocabSize)
    ensures Decodable(c.idxToChar, model(x))
  {
  }

  /** Leaving the loop, normally or at the `break`, the first n collected
      are the first n of the whole deduplicated sequence. */
  lemma LoopExit(lead: seq<string>, valid: seq<string>, i: nat, n: nat, collected: seq<string>)
    requires i <= |valid| && collected == Dedup(lead + valid[..i])
    requires i == |valid| || |collected| >= n
    ensures Take(collected, n) == Take(Dedup(lead + valid), n)
  {
    assert lead + valid == (lead + valid[..i]) + valid[i..];
    DedupPrefix(lead + valid[..i], valid[i..]);
    if i == |valid| {
      assert valid[..i] == valid;
    }
    TakeOfPrefix(collected, Dedup(lead + valid), n);
  }

  /** The lead has no repeats. */
  lemma DedupLead(pred: string, valid: seq<string>)
    ensures Dedup(Lead(pred, valid)) == Lead(pred, valid)
  {
    if pred in valid { assert [pred][..0] == []; }
  }

  /** Deduplication one element at a time. */
  lemma DedupSnoc<T>(s: seq<T>, x: T)
    ensures Dedup(s + [x]) == if x in Dedup(s) then Dedup(s) else Dedup(s) + [x]
  {
    assert (s + [x])[..|s|] == s;
  }

  /** One more candidate through the loop. */
  lemma DedupStep<T>(lead: seq<T>, valid: seq<T>, i: nat)
    requires i < |valid|
    ensures Dedup(lead + valid[..i + 1]) ==
      if valid[i] in Dedup(lead + valid[..i]) then Dedup(lead + valid[..i])
      else Dedup(lead + valid[..i]) + [valid[i]]
  {
    assert lead + valid[..i + 1] == (lead + valid[..i]) + [valid[i]];
    DedupSnoc(lead + valid[..i], valid[i]);
  }

  /** Taking n from a prefix that has at least n elements, or that is the
      whole sequence, is taking n from the whole. */
  lemma TakeOfPrefix<T>(a: seq<T>, b: seq<T>, n: nat)
    requires a <= b && (|a| >= n || a == b)
    ensures Take(a, n) == Take(b, n)
  {
  }

  /** A prefix of a repeat-free sequence has no repeats. */
  lemma PrefixDistinct<T>(a: seq<T>, b: seq<T>)
    requires a <= b && NoDuplicates(b)
    ensures NoDuplicates(a)
  {
    assert forall i :: 0 <= i < |a| ==> a[i] == b[i];
  }

  /** Whatever the network predicts: at most n words, no word twice, and
      only candidates, that is words of the list that start with the prefix. */
  lemma RankedBounds(pred: string, valid: seq<string>, n: nat)
    ensures |Ranked(pred, valid, n)| <= n
    ensures NoDuplicates(Ranked(pred, valid, n))
    ensures forall i :: 0 <= i < |Ranked(pred, valid, n)| ==> Ranked(pred, valid, n)[i] in valid
  {
    var d := Dedup(Lead(pred, valid) + valid);
    PrefixDistinct(Ranked(pred, valid, n), d);
    forall i | 0 <= i < |Ranked(pred, valid, n)| ensures Ranked(pred, valid, n)[i] in valid {
      assert Ranked(pred, valid, n)[i] == d[i];
      assert d[i] in Lead(pred, valid) + valid;
    }
  }

  /** The prediction comes first exactly when it is a candidate (and n > 0). */
  lemma RankedLead(pred: string, valid: seq<string>, n: nat)
    requires n > 0
    ensures pred in valid <==> Ranked(pred, valid, n) != [] && Ranked(pred, valid, n)[0] == pred
  {
    var d := Dedup(Lead(pred, valid) + valid);
    if pred in valid {
      assert Lead(pred, valid) + valid == [pred] + valid;
      DedupPrefix([pred], valid);
      assert Dedup([pred]) == [pred] by { assert [pred][..0] == []; }
      assert d[0] == pred;
    } else {
      RankedBounds(pred, valid, n);
      if Ranked(pred, valid, n) != [] {
        assert Ranked(pred, valid, n)[0] in valid;
      }
    }
  }

  /** A prediction that is not a candidate is never shown and changes
      nothing: the result is the first n distinct candidates. */
  lemma RankedIgnoresNonCandidate(pred: string, valid: seq<string>, n: nat)
    requires pred !in valid
    ensures Ranked(pred, valid, n) == Take(Dedup(valid), n)
  {
    assert Lead(pred, valid) + valid == valid;
  }

  /** The distinct elements of a word list. */
  function WordSet(s: seq<string>): set<string> {
    set w | w in s
  }

  /** A repeat-free list has as many elements as distinct elements. */
  lemma {:induction false} DistinctCount(s: seq<string>)
    requires NoDuplicates(s)
    ensures |WordSet(s)| == |s|
    decreases |s|
  {
    if s != [] {
      var init := s[..|s| - 1];
      assert WordSet(s) == WordSet(init) + {s[|s| - 1]} by {
        assert forall i :: 0 <= i < |init| ==> init[i] == s[i];
      }
      assert s[|s| - 1] !in WordSet(init);
      DistinctCount(init);
    }
  }

  /** Deduplicating the lead and the candidates leaves one entry per
      distinct candidate. */
  lemma DedupCount(pred: string, valid: seq<string>)
    ensures WordSet(Dedup(Lead(pred, valid) + valid)) == WordSet(valid)
    ensures |Dedup(Lead(pred, valid) + valid)| == |WordSet(valid)|
  {
    var all := Lead(pred, valid) + valid;
    var d := Dedup(all);
    DedupSame(all);
    assert forall w :: w in all <==> w in valid;
    DistinctCount(d);
  }

  /** Deduplication keeps exactly the elements. */
  lemma DedupSame(s: seq<string>)
    ensures forall w :: w in Dedup(s) <==> w in s
  {
    var d := Dedup(s);
    forall w | w in d ensures w in s {
      var i :| 0 <= i < |d| && d[i] == w;
    }
    forall w | w in s ensures w in d {
      var i :| 0 <= i < |s| && s[i] == w;
    }
  }

  /** When there are at most n distinct candidates, every one is suggested. */
  lemma RankedComplete(pred: string, valid: seq<string>, n: nat)
    requires |WordSet(valid)| <= n
    ensures forall i :: 0 <= i < |valid| ==> valid[i] in Ranked(pred, valid, n)
  {
    var all := Lead(pred, valid) + valid;
    DedupCount(pred, valid);
    forall i | 0 <= i < |valid| ensures valid[i] in Ranked(pred, valid, n) {
      assert all[|Lead(pred, valid)| + i] == valid[i];
    }
  }

  /** Whatever the network predicts, a query yields at most n distinct words
      of the list that start with the prefix, and nothing for an empty prefix
      or one with a character outside the alphabet. */
  lemma SuggestBounds(c: Corpus, model: Predictor, prefix: string, n: nat)
    requires IndexTotal(c) && InRange(model, c.vocabSize)
    ensures prefix == [] || !Known(c.charToIdx, prefix) ==> Suggest(c, model, prefix, n) == []
    ensures |Suggest(c, model, prefix, n)| <= n
    ensures NoDuplicates(Suggest(c, model, prefix, n))
    ensures forall i :: 0 <= i < |Suggest(c, model, prefix, n)| ==>
      Suggest(c, model, prefix, n)[i] in c.words && prefix <= Suggest(c, model, prefix, n)[i]
  {
    if prefix != [] && Known(c.charToIdx, prefix) {
      var x := PadRow(Encode(c.charToIdx, prefix), c.maxSeqLen);
      PredictionDecodable(c, model, x);
      RankedBounds(Decode(c.idxToChar, model(x)), Candidates(c.words, prefix), n);
    }
  }

  /** The example vocabulary ["casa", "caso", "caminar"] with prefix "ca"
      and n = 3: some ordering of exactly these three words, whatever the
      prediction, and the prediction first when it is one of them. */
  lemma CasaScenario(pred: string)
    ensures var r := Ranked(pred, Candidates(["casa", "caso", "caminar"], "ca"), 3);
      |r| == 3 && NoDuplicates(r) && (forall w :: w in r <==> w in ["casa", "caso", "caminar"])
      && (pred in ["casa", "caso", "caminar"] ==> r[0] == pred)
      && (pred !in ["casa", "caso", "caminar"] ==> r == ["casa", "caso", "caminar"])
  {
    var ws := ["casa", "caso", "caminar"];
    CasaCandidates();
    RankedBounds(pred, ws, 3);
    assert NoDuplicates(ws);
    DistinctCount(ws);
    DedupCount(pred, ws);
    RankedComplete(pred, ws, 3);
    if pred in ws {
      RankedLead(pred, ws, 3);
    } else {
      RankedIgnoresNonCandidate(pred, ws, 3);
      DedupDistinct(ws);
    }
  }

  /** Every word of the example starts with "ca". */
  lemma CasaCandidates()
    ensures Candidates(["casa", "caso", "caminar"], "ca") == ["casa", "caso", "caminar"]
  {
    var a, b, c: string := "casa", "caso", "caminar";
    assert "ca" <= a && "ca" <= b && "ca" <= c by {
      assert a[..2] == "ca" && b[..2] == "ca" && c[..2] == "ca";
    }
    CandidatesSnoc([], "ca", a);
    assert [] + [a] == [a];
    CandidatesSnoc([a], "ca", b);
    assert [a] + [b] == [a, b];
    CandidatesSnoc([a, b], "ca", c);
    assert [a, b] + [c] == [a, b, c];
  }

  /** The candidates of a list extended by one word. */
  lemma CandidatesSnoc(words: seq<string>, prefix: string, w: string)
    ensures Candidates(words + [w], prefix) ==
      Candidates(words, prefix) + (if prefix <= w then [w] else [])
  {
    assert (words + [w])[..|words|] == words;
  }
}
