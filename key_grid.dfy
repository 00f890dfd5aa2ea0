/** The on-screen keyboard's geometry: the window constants of config.py,
    the key layout, the rectangle of every key (`_init_key_rects`) and the
    hit test that `update_selection` runs over them. */
module KeyGrid {

  /** config.py:2-5. */
  const KeyboardWidth: nat := 700
  const KeyboardHeight: nat := 300
  const TextAreaHeight: nat := 150
  const SuggestionsHeight: nat := 60

  /** The top edge of the first row of keys: below the text and the
      suggestion strip. */
  const KeysTop: nat := TextAreaHeight + SuggestionsHeight

  datatype Option<T> = None | Some(value: T)

  /** A key of the layout: the three special keys 'BORRAR', 'ESPACIO' and
      'MAYUS', and the one-character keys. */
  datatype Key = Backspace | Space | CapsToggle | Char(c: char)

  /** `self.key_layout`: digits, three rows of letters and punctuation, and
      the row of special keys. */
  const KeyLayout: seq<seq<Key>> := [
    [Char('1'), Char('2'), Char('3'), Char('4'), Char('5'), Char('6'), Char('7'), Char('8'), Char('9'), Char('0')],
    [Char('q'), Char('w'), Char('e'), Char('r'), Char('t'), Char('y'), Char('u'), Char('i'), Char('o'), Char('p')],
    [Char('a'), Char('s'), Char('d'), Char('f'), Char('g'), Char('h'), Char('j'), Char('k'), Char('l'), Char('\U{F1}')],
    [Char('z'), Char('x'), Char('c'), Char('v'), Char('b'), Char('n'), Char('m'), Char(','), Char('.'), Char(';')],
    [Backspace, Space, CapsToggle]
  ]

  /** The standard layout has five non-empty rows (ten, ten, ten, ten and
      three keys). */
  lemma LayoutShape()
    ensures Laid(KeyLayout)
    ensures |KeyLayout| == 5
    ensures forall i :: 0 <= i < 4 ==> |KeyLayout[i]| == 10
    ensures |KeyLayout[4]| == 3
  {
  }

  /** The integer part of a `pygame.Rect`. */
  datatype Rect = Rect(x: int, y: int, w: int, h: int)

  /** `rect.collidepoint((px, py))`: the left and top edges belong to the
      rectangle, the right and bottom edges do not. */
  predicate Contains(r: Rect, px: int, py: int) {
    r.x <= px < r.x + r.w && r.y <= py < r.y + r.h
  }

  /** The rectangle of key `j` of row `i` in a layout of `rows` rows whose
      row `i` has `cols` keys: widths and heights are the integer quotients
      of the keyboard's size by the number of keys and of rows. */
  function KeyRect(rows: nat, cols: nat, i: nat, j: nat): (r: Rect)
    requires rows > 0 && cols > 0
  {
    Rect(j * (KeyboardWidth / cols), KeysTop + i * (KeyboardHeight / rows),
         KeyboardWidth / cols, KeyboardHeight / rows)
  }

  /** A layout the rectangles can be computed for: no division by zero. */
  predicate Laid(layout: seq<seq<Key>>) {
    |layout| > 0 && forall i :: 0 <= i < |layout| ==> |layout[i]| > 0
  }

  /** `rects` has the shape of `layout` and holds the rectangle of every key. */
  predicate IsGrid(layout: seq<seq<Key>>, rects: seq<seq<Rect>>) {
    Laid(layout) && |rects| == |layout|
    && (forall i :: 0 <= i < |layout| ==> |rects[i]| == |layout[i]|)
    && (forall i, j :: 0 <= i < |layout| && 0 <= j < |rects[i]| ==>
          rects[i][j] == KeyRect(|layout|, |layout[i]|, i, j))
  }

  /** `_init_key_rects`. */
  method InitKeyRects(layout: seq<seq<Key>>) returns (rects: seq<seq<Rect>>)
    requires Laid(layout)
    ensures IsGrid(layout, rects)
  {
    rects := [];
    var keyHeight := KeyboardHeight / |layout|;
    for rowIdx := 0 to |layout|
      invariant |rects| == rowIdx
      invariant forall i :: 0 <= i < rowIdx ==> |rects[i]| == |layout[i]|
      invariant forall i, j :: 0 <= i < rowIdx && 0 <= j < |rects[i]| ==>
        rects[i][j] == KeyRect(|layout|, |layout[i]|, i, j)
    {
      var row := layout[rowIdx];
      var rowRects := [];
      var keyWidth := KeyboardWidth / |row|;
      for colIdx := 0 to |row|
        invariant |rowRects| == colIdx
        invariant forall j :: 0 <= j < colIdx ==> rowRects[j] == KeyRect(|layout|, |row|, rowIdx, j)
      {
        var x := colIdx * keyWidth;
        var y := TextAreaHeight + SuggestionsHeight + rowIdx * keyHeight;
        rowRects := rowRects + [Rect(x, y, keyWidth, keyHeight)];
      }
      rects := rects + [rowRects];
    }
  }

  /** Cell (i, j) comes before cell (i', j') in row-major order. */
  predicate Before(i: nat, j: nat, i': nat, j': nat) {
    i < i' || (i == i' && j < j')
  }

  /** The first rectangle of a row that contains the point. */
  function RowHit(row: seq<Rect>, px: int, py: int): (r: Option<nat>)
    ensures r.Some? ==> (r.value < |row| && Contains(row[r.value], px, py)
      && forall j :: 0 <= j < r.value ==> !Contains(row[j], px, py))
    ensures r.None? ==> forall j :: 0 <= j < |row| ==> !Contains(row[j], px, py)
    decreases |row|
  {
    if row == [] then None
    else if Contains(row[0], px, py) then Some(0)
    else
      match RowHit(row[1..], px, py)
      case None => None
      case Some(k) => Some(k + 1)
  }

  /** The first key, in row-major order, whose rectangle contains the point,
      or None when there is none. */
  function FirstHit(rects: seq<seq<Rect>>, px: int, py: int): (r: Option<(nat, nat)>)
    ensures r.Some? ==> (r.value.0 < |rects| && r.value.1 < |rects[r.value.0]|
      && Contains(rects[r.value.0][r.value.1], px, py)
      && forall i, j :: 0 <= i < |rects| && 0 <= j < |rects[i]| && Before(i, j, r.value.0, r.value.1) ==>
           !Contains(rects[i][j], px, py))
    ensures r.None? <==> forall i, j :: 0 <= i < |rects| && 0 <= j < |rects[i]| ==> !Contains(rects[i][j], px, py)
    decreases |rects|
  {
    if rects == [] then None
    else
      match RowHit(rects[0], px, py)
      case Some(j) => Some((0, j))
      case None =>
        var rest := FirstHit(rects[1..], px, py);
        assert forall i :: 1 <= i < |rects| ==> rects[i] == rects[1..][i - 1];
        match rest
        case None => None
        case Some(p) => Some((p.0 + 1, p.1))
  }

  /** A hit with no hit before it is the first hit. */
  lemma FirstHitIs(rects: seq<seq<Rect>>, px: int, py: int, i: nat, j: nat)
    requires i < |rects| && j < |rects[i]| && Contains(rects[i][j], px, py)
    requires forall i', j' :: 0 <= i' < |rects| && 0 <= j' < |rects[i']| && Before(i', j', i, j) ==>
      !Contains(rects[i'][j'], px, py)
    ensures FirstHit(rects, px, py) == Some((i, j))
  {
    var r := FirstHit(rects, px, py);
    assert r.Some?;
    assert !Before(r.value.0, r.value.1, i, j);
    assert !Before(i, j, r.value.0, r.value.1);
  }

  /** Two bands of height h stacked from the same origin meet only when they
      are the same band. */
  lemma BandUnique(i: nat, i': nat, h: nat, p: int)
    requires h > 0
    requires i * h <= p < i * h + h && i' * h <= p < i' * h + h
    ensures i == i'
  {
    if i < i' {
      MulMonotone(i + 1, i', h);
    } else if i' < i {
      MulMonotone(i' + 1, i, h);
    }
  }

  lemma MulMonotone(a: nat, b: nat, h: nat)
    requires a <= b
    ensures a * h <= b * h
  {
  }

  /** No point lies on two keys of a grid. */
  lemma GridDisjoint(layout: seq<seq<Key>>, rects: seq<seq<Rect>>, px: int, py: int,
                     i: nat, j: nat, i': nat, j': nat)
    requires IsGrid(layout, rects)
    requires i < |rects| && j < |rects[i]| && i' < |rects| && j' < |rects[i']|
    requires Contains(rects[i][j], px, py) && Contains(rects[i'][j'], px, py)
    ensures i == i' && j == j'
  {
    var h := KeyboardHeight / |layout|;
    assert h > 0 by { assert rects[i][j].h == h; }
    BandUnique(i, i', h, py - KeysTop);
    var w := KeyboardWidth / |layout[i]|;
    BandUnique(j, j', w, px);
  }

  /** Where a point falls on the standard layout, computed independently of
      the rectangles: five bands of 60 pixels; ten keys of 70 pixels in the
      first four, three keys of 233 pixels in the last, which therefore ends
      one pixel short of the right edge. */
  function StandardKeyAt(px: int, py: int): (r: Option<(nat, nat)>) {
    if px < 0 || px >= KeyboardWidth || py < KeysTop || py >= KeysTop + KeyboardHeight then None
    else if py < KeysTop + 240 then Some(((py - KeysTop) / 60, px / 70))
    else if px < 699 then Some((4, px / 233))
    else None
  }

  /** The width of a key in row i of the standard layout. */
  function StandardWidth(i: nat): nat {
    if i < 4 then 70 else 233
  }

  /** The rectangles of the standard layout, row by row. */
  lemma StandardRect(rects: seq<seq<Rect>>, i: nat, j: nat)
    requires IsGrid(KeyLayout, rects) && i < 5 && j < |KeyLayout[i]|
    ensures rects[i][j] == Rect(j * StandardWidth(i), KeysTop + i * 60, StandardWidth(i), 60)
  {
    LayoutShape();
    assert rects[i][j] == KeyRect(5, |KeyLayout[i]|, i, j);
  }

  /** The hit test on the rectangles of the standard layout agrees with the
      closed form everywhere, including the uncovered pixel column at the
      right end of the bottom row and every point above the keys. */
  lemma StandardHit(rects: seq<seq<Rect>>, px: int, py: int)
    requires IsGrid(KeyLayout, rects)
    ensures FirstHit(rects, px, py) == StandardKeyAt(px, py)
  {
    LayoutShape();
    var k := StandardKeyAt(px, py);
    if k.Some? {
      var i, j := k.value.0, k.value.1;
      StandardRect(rects, i, j);
      assert Contains(rects[i][j], px, py);
      forall i', j' | 0 <= i' < |rects| && 0 <= j' < |rects[i']| && Before(i', j', i, j)
        ensures !Contains(rects[i'][j'], px, py)
      {
        if Contains(rects[i'][j'], px, py) {
          GridDisjoint(KeyLayout, rects, px, py, i, j, i', j');
          assert false;
        }
      }
      FirstHitIs(rects, px, py, i, j);
    } else {
      forall i, j | 0 <= i < |rects| && 0 <= j < |rects[i]|
        ensures !Contains(rects[i][j], px, py)
      {
        StandardRect(rects, i, j);
        if i == 4 && px >= 699 {
          assert j * 233 + 233 <= 699;
        }
      }
    }
  }
}
