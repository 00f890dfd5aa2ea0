/** The `KeyboardLogic` object: the text typed so far, the caps-lock flag and
    the key under the gaze, with the operations that change them
    (`select_key`, `select_suggestion`, `update_selection`) and the query
    `get_suggestions`. The click sound is left out. */
module Keyboard {
  import opened Text
  import opened Seqs
  import opened Vocabulary
  import opened TrainingData
  import opened Suggestions
  import opened KeyGrid

  /** The typing state that `select_key` works on. */
  datatype Buffer = Buffer(text: string, caps: bool)

  /** `s[:-1]`: everything but the last character; the empty string stays
      empty. */
  function DropLast(s: string): (r: string)
    ensures s == [] ==> r == []
    ensures s != [] ==> r + [s[|s| - 1]] == s
  {
    if s == [] then [] else s[..|s| - 1]
  }

  /** The characters a key appends: a blank for 'ESPACIO'; for a character
      key, `key.upper()` with caps lock on and `key.lower()` with it off;
      nothing for the two editing keys. */
  function Typed(key: Key, caps: bool): (r: string) {
    match key
    case Space => " "
    case Char(c) => if caps then Upper([c]) else Lower([c])
    case _ => []
  }

  /** How one key press changes the buffer (`select_key`). */
  function Press(b: Buffer, key: Key): (r: Buffer)
    ensures key != Backspace ==> b.text <= r.text
    ensures key == Backspace ==> r.text <= b.text && |r.text| == if b.text == [] then 0 else |b.text| - 1
    ensures r.caps != b.caps <==> key == CapsToggle
  {
    match key
    case Backspace => Buffer(DropLast(b.text), b.caps)
    case CapsToggle => Buffer(b.text, !b.caps)
    case _ => Buffer(b.text + Typed(key, b.caps), b.caps)
  }

  /** A key that types exactly one character is undone by 'BORRAR'. */
  lemma BackspaceUndoes(b: Buffer, key: Key)
    requires key != Backspace && key != CapsToggle && |Typed(key, b.caps)| == 1
    ensures Press(Press(b, key), Backspace) == b
  {
    var t := Press(b, key).text;
    assert t == b.text + Typed(key, b.caps);
    assert t[..|t| - 1] == b.text;
  }

  /** The characters on the keys of the layout: digits, small letters, 'ñ'
      and three punctuation marks. */
  predicate PlainChar(c: char) {
    ('0' <= c <= '9') || ('a' <= c <= 'z') || c == '\U{F1}' || c == ',' || c == '.' || c == ';'
  }

  /** Such a character types one character in either case, which lower-cases
      back to it. */
  lemma PlainTypesOne(c: char, caps: bool)
    requires PlainChar(c)
    ensures |Typed(Char(c), caps)| == 1
    ensures Lower(Typed(Char(c), caps)) == [c]
    ensures LowerChar(Typed(Char(c), caps)[0]) == c
    ensures !IsSpace(c)
  {
    assert Upper([c]) == UpperChar(c) by { assert [c][..0] == []; }
  }

  /** Every character key of the layout types one character in either case,
      and lower-casing it gives back the key itself: with caps lock on or
      off, the prefix the suggestions are computed from is the same. */
  lemma LayoutKeysTypeOne(i: nat, j: nat, caps: bool)
    requires i < |KeyLayout| && j < |KeyLayout[i]| && KeyLayout[i][j].Char?
    ensures |Typed(KeyLayout[i][j], caps)| == 1
    ensures Lower(Typed(KeyLayout[i][j], caps)) == [KeyLayout[i][j].c]
    ensures !IsSpace(KeyLayout[i][j].c)
    ensures LowerChar(Typed(KeyLayout[i][j], caps)[0]) == KeyLayout[i][j].c
  {
    assert i < 4;
    assert PlainChar(KeyLayout[i][j].c);
    PlainTypesOne(KeyLayout[i][j].c, caps);
  }

  /** Typing any key of the layout but the two editing keys and then
      'BORRAR' leaves the buffer as it was. */
  lemma LayoutUndo(b: Buffer, i: nat, j: nat)
    requires i < |KeyLayout| && j < |KeyLayout[i]|
    requires KeyLayout[i][j] != Backspace && KeyLayout[i][j] != CapsToggle
    ensures Press(Press(b, KeyLayout[i][j]), Backspace) == b
  {
    if KeyLayout[i][j].Char? {
      LayoutKeysTypeOne(i, j, b.caps);
    }
    BackspaceUndoes(b, KeyLayout[i][j]);
  }

  /** 'MAYUS' twice changes nothing, and 'MAYUS' never changes the text. */
  lemma CapsInvolution(b: Buffer)
    ensures Press(Press(b, CapsToggle), CapsToggle) == b
    ensures Press(b, CapsToggle).text == b.text
  {
  }

  /** `words[:-1]`. */
  function AllButLast(ws: seq<string>): (r: seq<string>)
    ensures |r| == if ws == [] then 0 else |ws| - 1
    ensures r <= ws
  {
    if ws == [] then [] else ws[..|ws| - 1]
  }

  /** The text after `select_suggestion(s)`: the last word replaced by `s`
      and a blank after it; an empty suggestion changes nothing. */
  function Replace(text: string, s: string): (r: string) {
    if s == [] then text else Join(AllButLast(Split(text))) + " " + s + " "
  }

  /** Choosing a suggestion keeps every word but the last and puts the words
      of the suggestion in its place. */
  lemma ReplaceSplit(text: string, s: string)
    requires s != []
    ensures Split(Replace(text, s)) == AllButLast(Split(text)) + Split(s)
  {
    var ws := Split(text);
    var init := AllButLast(ws);
    SplitWords(text);
    WordsPrefix(init, ws);
    SplitJoin(init);
    var j := Join(init);
    assert Replace(text, s) == j + [' '] + (s + [' ']);
    SplitAround(j, ' ', s + [' ']);
    SplitTrailingSpace(s, ' ');
  }

  /** The word of the text that `get_suggestions` completes: its last one. */
  function LastWord(text: string): (r: string)
    requires !AllSpace(text)
  {
    SplitEmpty(text);
    var ws := Split(text);
    ws[|ws| - 1]
  }

  /** Choosing a one-word suggestion makes it the last word of the text. */
  lemma ReplaceLastWord(text: string, s: string)
    requires IsWord(s)
    ensures !AllSpace(Replace(text, s))
    ensures LastWord(Replace(text, s)) == s
    ensures Split(Replace(text, s)) == AllButLast(Split(text)) + [s]
  {
    ReplaceSplit(text, s);
    SplitWord(s);
    SplitEmpty(Replace(text, s));
  }

  /** What `get_suggestions(n)` returns for a text: nothing for a blank
      text, otherwise the suggestions for its last word, lower-cased. */
  function SuggestionsFor(c: Corpus, model: Predictor, text: string, n: nat): (r: seq<string>)
    requires IndexTotal(c) && InRange(model, c.vocabSize)
  {
    if Strip(text) == [] then [] else Suggest(c, model, Lower(LastWord(text)), n)
  }

  /** Typing a character that is not white space extends the last word when
      it follows one that is not white space either, and otherwise starts a
      new last word. */
  lemma LastWordSnoc(text: string, x: char)
    requires !IsSpace(x)
    ensures !AllSpace(text + [x])
    ensures text != [] && !IsSpace(text[|text| - 1]) ==>
      !AllSpace(text) && LastWord(text + [x]) == LastWord(text) + [x]
    ensures text == [] || IsSpace(text[|text| - 1]) ==> LastWord(text + [x]) == [x]
  {
    assert (text + [x])[|text|] == x;
    if text != [] && !IsSpace(text[|text| - 1]) {
      SplitSnocWord(text, x);
      SplitEmpty(text);
    } else {
      SplitSnocNew(text, x);
    }
  }

  /** Typing a character key of the layout, with caps lock on or off, moves
      the suggestions on by that character: after a character that is not
      white space they complete the lower-cased last word followed by the
      key; at the start or after white space they complete the key alone. */
  lemma TypingRefinesSuggestions(c: Corpus, model: Predictor, b: Buffer, i: nat, j: nat, n: nat)
    requires IndexTotal(c) && InRange(model, c.vocabSize)
    requires i < |KeyLayout| && j < |KeyLayout[i]| && KeyLayout[i][j].Char?
    ensures !AllSpace(Press(b, KeyLayout[i][j]).text)
    ensures b.text != [] && !IsSpace(b.text[|b.text| - 1]) ==>
      !AllSpace(b.text)
      && SuggestionsFor(c, model, Press(b, KeyLayout[i][j]).text, n)
         == Suggest(c, model, Lower(LastWord(b.text)) + [KeyLayout[i][j].c], n)
    ensures b.text == [] || IsSpace(b.text[|b.text| - 1]) ==>
      SuggestionsFor(c, model, Press(b, KeyLayout[i][j]).text, n)
      == Suggest(c, model, [KeyLayout[i][j].c], n)
  {
    LayoutKeysTypeOne(i, j, b.caps);
    var typed := Typed(KeyLayout[i][j], b.caps);
    assert Press(b, KeyLayout[i][j]).text == b.text + [typed[0]];
    SuggestionsSnoc(c, model, b.text, typed[0], KeyLayout[i][j].c, n);
  }

  /** The suggestions after appending a character that is not white space
      and lower-cases to `k`. */
  lemma SuggestionsSnoc(c: Corpus, model: Predictor, text: string, x: char, k: char, n: nat)
    requires IndexTotal(c) && InRange(model, c.vocabSize)
    requires LowerChar(x) == k && !IsSpace(k)
    ensures !IsSpace(x) && !AllSpace(text + [x])
    ensures text != [] && !IsSpace(text[|text| - 1]) ==>
      !AllSpace(text)
      && SuggestionsFor(c, model, text + [x], n) == Suggest(c, model, Lower(LastWord(text)) + [k], n)
    ensures text == [] || IsSpace(text[|text| - 1]) ==>
      SuggestionsFor(c, model, text + [x], n) == Suggest(c, model, [k], n)
  {
    LowerKeepsSpace(x);
    LastWordSnoc(text, x);
    assert Lower([x]) == [k];
    if text != [] && !IsSpace(text[|text| - 1]) {
      LowerAppend(LastWord(text), [x]);
    }
  }

  /** A blank text has no suggestions; otherwise at most n, none twice, each
      a word of the list starting with the last word typed. */
  lemma SuggestionsForBounds(c: Corpus, model: Predictor, text: string, n: nat)
    requires IndexTotal(c) && InRange(model, c.vocabSize)
    ensures AllSpace(text) ==> SuggestionsFor(c, model, text, n) == []
    ensures |SuggestionsFor(c, model, text, n)| <= n
    ensures NoDuplicates(SuggestionsFor(c, model, text, n))
    ensures !AllSpace(text) ==> forall i :: 0 <= i < |SuggestionsFor(c, model, text, n)| ==>
      SuggestionsFor(c, model, text, n)[i] in c.words
      && Lower(LastWord(text)) <= SuggestionsFor(c, model, text, n)[i]
  {
    if !AllSpace(text) {
      SuggestBounds(c, model, Lower(LastWord(text)), n);
    }
  }

  class KeyboardLogic {
    /** `self.current_text`. */
    var currentText: string
    /** `self.caps_lock`. */
    var capsLock: bool
    /** `self.selected_key`: the (row, column) of the key under the gaze. */
    var selectedKey: Option<(nat, nat)>

    /** What `_prepare_data` computed from the word file. */
    const corpus: Corpus
    /** The trained (or loaded) network. */
    const model: Predictor
    /** `self.key_layout`. */
    const keyLayout: seq<seq<Key>>
    /** `self.key_rects`. */
    const keyRects: seq<seq<Rect>>

    /** What the constructor establishes and no method can change: the
        alphabet maps cover every index the network can produce, and the
        rectangles are those of the layout. */
    ghost predicate Valid() {
      IndexTotal(corpus) && InRange(model, corpus.vocabSize)
      && keyLayout == KeyLayout && IsGrid(keyLayout, keyRects)
    }

    /** `__init__`, given the lines of the word file and the network that
        was trained on the prepared data. A word file with no word of at
        least two characters makes the source fail (`max` of an empty
        sequence), hence the first precondition. */
    constructor (lines: seq<string>, model: Predictor)
      requires Build(LoadWords(lines)).Ok?
      requires InRange(model, Build(LoadWords(lines)).value.vocabSize)
      ensures Valid()
      ensures corpus == Build(LoadWords(lines)).value && this.model == model
      ensures currentText == [] && selectedKey == None && !capsLock
    {
      currentText := [];
      selectedKey := None;
      capsLock := false;
      var r := PrepareData(lines);
      BuildVocabulary(LoadWords(lines));
      corpus := r.value;
      this.model := model;
      keyLayout := KeyLayout;
      LayoutShape();
      var rects := InitKeyRects(KeyLayout);
      keyRects := rects;
    }

    /** `select_key`. */
    method SelectKey(key: Key)
      modifies this
      ensures Buffer(currentText, capsLock) == Press(Buffer(old(currentText), old(capsLock)), key)
      ensures selectedKey == old(selectedKey)
    {
      if key == Space {
        currentText := currentText + " ";
      } else if key == Backspace {
        currentText := DropLast(currentText);
      } else if key == CapsToggle {
        capsLock := !capsLock;
      } else {
        currentText := currentText + (if capsLock then Upper([key.c]) else Lower([key.c]));
      }
    }

    /** `select_suggestion`. */
    method SelectSuggestion(suggestion: string)
      modifies this
      ensures currentText == Replace(old(currentText), suggestion)
      ensures capsLock == old(capsLock) && selectedKey == old(selectedKey)
    {
      if suggestion != [] {
        var words := Split(currentText);
        currentText := Join(AllButLast(words)) + " " + suggestion + " ";
      }
    }

    /** `get_suggestions`; `n` defaults to 3. */
    method GetSuggestions(n: nat := 3) returns (r: seq<string>)
      requires Valid()
      ensures r == SuggestionsFor(corpus, model, currentText, n)
      ensures AllSpace(currentText) ==> r == []
      ensures |r| <= n
    {
      var text := currentText;
      if Strip(text) == [] {
        return [];
      }
      SplitEmpty(text);
      var words := Split(text);
      var lastWord := Lower(words[|words| - 1]);
      assert SuggestionsFor(corpus, model, text, n) == Suggest(corpus, model, lastWord, n);
      r := PredictWords(corpus, model, lastWord, n);
    }

    /** `update_selection`: the first key, row by row, whose rectangle
        contains the gaze point, or none. */
    method UpdateSelection(px: int, py: int)
      modifies this
      ensures selectedKey == FirstHit(keyRects, px, py)
      ensures currentText == old(currentText) && capsLock == old(capsLock)
    {
      selectedKey := None;
      for rowIdx := 0 to |keyRects|
        invariant selectedKey == None
        invariant currentText == old(currentText) && capsLock == old(capsLock)
        invariant forall i, j :: 0 <= i < rowIdx && 0 <= j < |keyRects[i]| ==> !Contains(keyRects[i][j], px, py)
      {
        var row := keyRects[rowIdx];
        for colIdx := 0 to |row|
          invariant selectedKey == None
          invariant currentText == old(currentText) && capsLock == old(capsLock)
          invariant forall j :: 0 <= j < colIdx ==> !Contains(row[j], px, py)
        {
          if Contains(row[colIdx], px, py) {
            selectedKey := Some((rowIdx, colIdx));
            FirstHitIs(keyRects, px, py, rowIdx, colIdx);
            return;
          }
        }
      }
    }
  }

  /** On the standard keyboard the selected key is the closed-form one. */
  lemma SelectionOnLayout(k: KeyboardLogic, px: int, py: int)
    requires k.Valid()
    ensures FirstHit(k.keyRects, px, py) == StandardKeyAt(px, py)
  {
    StandardHit(k.keyRects, px, py);
  }
}
