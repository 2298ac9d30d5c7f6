/**
 * Tile text: strings are encoded as indexes into a glyph sheet and written,
 * glyph by glyph, into a width-by-height tile layer through a write cursor.
 * The layer is an `array2<int>` indexed `[row, column]`; -1 is an empty tile.
 */
module TileText {
  import opened Wrappers

  /** The glyph sheet's basic characters, in sheet order. */
  const BasicText := "0123456789/"

  /** The table of named special glyphs, written `{name}`; the game defines none. */
  const SpecialText: map<string, int> := map[]

  /** The inverse of `SpecialText`, from glyph index to name (empty as well). */
  const SpecialIndexes: map<int, string> := map[]

  /** A glyph sheet index, or the line break marker. */
  datatype TextIndex = Tile(index: int) | NewLine

  // ---------------------------------------------------------------------
  // Encoding

  /** `s.indexOf(c, from)`: the first position at or after `from` holding `c`, or -1. */
  function IndexOfFrom(s: string, c: char, from: nat): (r: int)
    requires from <= |s|
    ensures r == -1 || from <= r < |s|
    ensures r >= 0 ==> s[r] == c && forall m :: from <= m < r ==> s[m] != c
    ensures r == -1 <==> forall m :: from <= m < |s| ==> s[m] != c
    decreases |s| - from
  {
    if from == |s| then -1
    else if s[from] == c then from
    else IndexOfFrom(s, c, from + 1)
  }

  /** The index a single character other than `{` is encoded as. */
  function Encode(c: char): (r: TextIndex)
    ensures r.NewLine? <==> c == '\n'
    ensures r.Tile? && r.index >= 0 ==> r.index < |BasicText| && BasicText[r.index] == c
    ensures r.Tile? && r.index < 0 ==> r.index == -1 && c !in BasicText
  {
    if c == '\n' then NewLine else Tile(IndexOfFrom(BasicText, c, 0))
  }

  /** Character-by-character encoding. */
  function Encoded(s: string): (r: seq<TextIndex>)
    ensures |r| == |s| && forall i :: 0 <= i < |s| ==> r[i] == Encode(s[i])
  {
    seq(|s|, i requires 0 <= i < |s| => Encode(s[i]))
  }

  /** `prefix` in front of a successful result; a failure stays as it is. */
  function After(prefix: seq<TextIndex>, r: Result<seq<TextIndex>, string>): Result<seq<TextIndex>, string> {
    if r.Failure? then r else Success(prefix + r.value)
  }

  /** Two prefixes in a row are their concatenation. */
  lemma AfterAfter(a: seq<TextIndex>, b: seq<TextIndex>, r: Result<seq<TextIndex>, string>)
    ensures After(a, After(b, r)) == After(a + b, r)
  {
    if r.Success? {
      assert a + (b + r.value) == (a + b) + r.value;
    }
  }

  /**
   * `parseText` from position `k` on: a `{` must be matched by a later `}`
   * and name a special glyph whose index is non-zero; the parse then resumes
   * after the `}`. Any failure reports the whole text.
   */
  function ParseFrom(special: map<string, int>, text: string, k: nat): (r: Result<seq<TextIndex>, string>)
    requires k <= |text|
    ensures r.Success? ==> |r.value| <= |text| - k
    decreases |text| - k
  {
    if k == |text| then Success([])
    else if text[k] == '{' then
      var b := IndexOfFrom(text, '}', k);
      if b == -1 then Failure("Unmatched bracket: " + text)
      else
        var name := text[k + 1..b];
        if name !in special || special[name] == 0 then
          Failure("Invalid special text tag " + name + ": " + text)
        else After([Tile(special[name])], ParseFrom(special, text, b + 1))
    else After([Encode(text[k])], ParseFrom(special, text, k + 1))
  }

  /** The whole of `parseText`. */
  function Parsed(special: map<string, int>, text: string): Result<seq<TextIndex>, string> {
    ParseFrom(special, text, 0)
  }

  /** `parseText`: the loop pushes one index per character or special tag. */
  method ParseText(special: map<string, int>, text: string) returns (r: Result<seq<TextIndex>, string>)
    ensures r == Parsed(special, text)
  {
    var indexes: seq<TextIndex> := [];
    var k := 0;
    assert After([], ParseFrom(special, text, 0)) == ParseFrom(special, text, 0) by {
      var r0 := ParseFrom(special, text, 0);
      if r0.Success? {
        assert [] + r0.value == r0.value;
      }
    }
    while k < |text|
      invariant 0 <= k <= |text|
      invariant Parsed(special, text) == After(indexes, ParseFrom(special, text, k))
      decreases |text| - k
    {
      var next := NextIndex(special, text, k);
      if next.Failure? {
        return Failure(next.error);
      }
      Advance(special, text, indexes, k, next.value.0, next.value.1);
      indexes := indexes + [next.value.0];
      k := next.value.1;
    }
    assert indexes + [] == indexes;
    r := Success(indexes);
  }

  /**
   * The body of `parseText`'s loop: the index for the character or special
   * tag at `k`, and the position the loop resumes at.
   */
  method NextIndex(special: map<string, int>, text: string, k: nat) returns (r: Result<(TextIndex, nat), string>)
    requires k < |text|
    ensures r.Failure? ==> ParseFrom(special, text, k) == Failure(r.error)
    ensures r.Success? ==> (k < r.value.1 <= |text|
      && ParseFrom(special, text, k) == After([r.value.0], ParseFrom(special, text, r.value.1)))
  {
    var letter := text[k];
    if letter == '{' {
      var tag := SpecialTag(special, text, k);
      if tag.Failure? {
        return Failure(tag.error);
      }
      r := Success((tag.value.0, tag.value.1 + 1));
    } else {
      ParseLetter(special, text, k);
      r := Success((Encode(letter), k + 1));
    }
  }

  /** One step of `parseText`'s loop keeps the rest of the parse in front of what is pushed. */
  lemma Advance(special: map<string, int>, text: string, indexes: seq<TextIndex>, k: nat, item: TextIndex, next: nat)
    requires k < next <= |text|
    requires Parsed(special, text) == After(indexes, ParseFrom(special, text, k))
    requires ParseFrom(special, text, k) == After([item], ParseFrom(special, text, next))
    ensures Parsed(special, text) == After(indexes + [item], ParseFrom(special, text, next))
  {
    AfterAfter(indexes, [item], ParseFrom(special, text, next));
  }

  /** A character other than `{` is encoded where it stands. */
  lemma ParseLetter(special: map<string, int>, text: string, k: nat)
    requires k < |text| && text[k] != '{'
    ensures ParseFrom(special, text, k) == After([Encode(text[k])], ParseFrom(special, text, k + 1))
  {
  }

  /** The `{` branch of `parseText`'s loop: the tag's index and the position of its `}`. */
  method SpecialTag(special: map<string, int>, text: string, k: nat) returns (r: Result<(TextIndex, nat), string>)
    requires k < |text| && text[k] == '{'
    ensures r.Failure? ==> ParseFrom(special, text, k) == Failure(r.error)
    ensures r.Success? ==> (k < r.value.1 < |text| && text[r.value.1] == '}'
      && ParseFrom(special, text, k) == After([r.value.0], ParseFrom(special, text, r.value.1 + 1)))
  {
    var bracketIndex := IndexOfFrom(text, '}', k);
    ParseBrace(special, text, k);
    if bracketIndex == -1 {
      return Failure("Unmatched bracket: " + text);
    }
    var name := text[k + 1..bracketIndex];
    if name !in special || special[name] == 0 {
      return Failure("Invalid special text tag " + name + ": " + text);
    }
    r := Success((Tile(special[name]), bracketIndex));
  }

  /** A `{` is looked up by the name up to the next `}`. */
  lemma ParseBrace(special: map<string, int>, text: string, k: nat)
    requires k < |text| && text[k] == '{'
    ensures var b := IndexOfFrom(text, '}', k);
      && (b == -1 ==> ParseFrom(special, text, k) == Failure("Unmatched bracket: " + text))
      && (b != -1 ==> k < b < |text|)
      && (b != -1 && (text[k + 1..b] !in special || special[text[k + 1..b]] == 0) ==>
            ParseFrom(special, text, k) == Failure("Invalid special text tag " + text[k + 1..b] + ": " + text))
      && (b != -1 && text[k + 1..b] in special && special[text[k + 1..b]] != 0 ==>
            ParseFrom(special, text, k) == After([Tile(special[text[k + 1..b]])], ParseFrom(special, text, b + 1)))
  {
  }

  /** Without `{` the parse succeeds, whatever the table, with one index per character. */
  lemma {:induction false} ParseWithoutBraces(special: map<string, int>, text: string, k: nat)
    requires k <= |text|
    requires forall i :: 0 <= i < |text| ==> text[i] != '{'
    ensures ParseFrom(special, text, k) == Success(Encoded(text[k..]))
    decreases |text| - k
  {
    if k < |text| {
      ParseWithoutBraces(special, text, k + 1);
      assert Encoded(text[k..]) == [Encode(text[k])] + Encoded(text[k + 1..]);
    }
  }

  /** A failure at `k` is the failure of the whole parse when nothing before `k` was a `{`. */
  lemma {:induction false} FailureFrom(special: map<string, int>, text: string, j: nat, k: nat)
    requires j <= k < |text|
    requires forall i :: j <= i < k ==> text[i] != '{'
    requires ParseFrom(special, text, k).Failure?
    ensures ParseFrom(special, text, j) == ParseFrom(special, text, k)
    decreases k - j
  {
    if j < k {
      FailureFrom(special, text, j + 1, k);
    }
  }

  /**
   * With the game's empty table, the first `{` makes the parse fail: with
   * "Unmatched bracket" when no `}` follows, otherwise with an invalid-tag
   * error naming the text between the brackets.
   */
  lemma BraceFails(text: string, k: nat)
    requires k < |text| && text[k] == '{'
    requires forall i :: 0 <= i < k ==> text[i] != '{'
    ensures var r := Parsed(SpecialText, text);
      var b := IndexOfFrom(text, '}', k);
      && r.Failure?
      && (b == -1 ==> r.error == "Unmatched bracket: " + text)
      && (b != -1 ==> k < b && r.error == "Invalid special text tag " + text[k + 1..b] + ": " + text)
  {
    FailureFrom(SpecialText, text, 0, k);
  }

  // ---------------------------------------------------------------------
  // Decoding

  /** One index back to text: an empty tile is a space, an out-of-range index nothing. */
  function Glyph(names: map<int, string>, t: TextIndex): string {
    match t
    case NewLine => "\n"
    case Tile(n) =>
      if n == -1 then " "
      else if n in names then "{" + names[n] + "}"
      else if 0 <= n < |BasicText| then [BasicText[n]]
      else ""
  }

  /** The glyphs of `indexes`, joined. */
  function Decode(names: map<int, string>, indexes: seq<TextIndex>): string {
    if indexes == [] then "" else Glyph(names, indexes[0]) + Decode(names, indexes[1..])
  }

  /** `indexesToText`. */
  function IndexesToText(indexes: seq<TextIndex>): string {
    Decode(SpecialIndexes, indexes)
  }

  /** What survives of a character: a glyph of the sheet or a line break, otherwise a space. */
  function Kept(c: char): char {
    if c in BasicText || c == '\n' then c else ' '
  }

  /** Every character of `s` through `Kept`. */
  function Blanked(s: string): (r: string)
    ensures |r| == |s| && forall i :: 0 <= i < |s| ==> r[i] == Kept(s[i])
  {
    seq(|s|, i requires 0 <= i < |s| => Kept(s[i]))
  }

  /** The glyph of an encoded character is the character, or a space if the sheet lacks it. */
  lemma GlyphOfEncode(c: char)
    ensures Glyph(SpecialIndexes, Encode(c)) == [Kept(c)]
  {
    var t := Encode(c);
    if t.Tile? && t.index >= 0 {
      assert BasicText[t.index] == c;
    }
  }

  /** Decoding an encoded character gives it back, or a space if the sheet lacks it. */
  lemma {:induction false} DecodeEncoded(s: string)
    requires forall i :: 0 <= i < |s| ==> s[i] != '{'
    ensures IndexesToText(Encoded(s)) == Blanked(s)
  {
    if s != [] {
      var c := s[0];
      assert Encoded(s)[1..] == Encoded(s[1..]);
      DecodeEncoded(s[1..]);
      GlyphOfEncode(c);
      assert Blanked(s) == [Kept(c)] + Blanked(s[1..]);
    }
  }

  /**
   * `indexesToText` after `parseText`: a text without `{` comes back with each
   * character the sheet lacks turned into a space.
   */
  lemma ParseThenDecode(s: string)
    requires forall i :: 0 <= i < |s| ==> s[i] != '{'
    ensures Parsed(SpecialText, s).Success?
    ensures |Parsed(SpecialText, s).value| == |s|
    ensures IndexesToText(Parsed(SpecialText, s).value) == Blanked(s)
  {
    ParseWithoutBraces(SpecialText, s, 0);
    assert s[0..] == s;
    DecodeEncoded(s);
  }

  /** The round trip over the sheet's alphabet, the space and the line break. */
  lemma RoundTrip(s: string)
    requires forall i :: 0 <= i < |s| ==> s[i] in "0123456789/ \n"
    ensures Parsed(SpecialText, s).Success?
    ensures IndexesToText(Parsed(SpecialText, s).value) == s
  {
    assert forall i :: 0 <= i < |s| ==> s[i] != '{' by {
      forall i | 0 <= i < |s| ensures s[i] != '{' {
        assert s[i] in "0123456789/ \n";
      }
    }
    ParseThenDecode(s);
    assert Blanked(s) == s by {
      forall i | 0 <= i < |s| ensures Blanked(s)[i] == s[i] {
        assert s[i] in "0123456789/ \n";
      }
    }
  }

  // ---------------------------------------------------------------------
  // Writing through the cursor

  datatype Cursor = Cursor(x: int, y: int)

  /**
   * The write cursor together with every cell it has put a tile into (the
   * latest tile per cell), whether or not the cell lies on the layer.
   */
  datatype Pen = Pen(at: Cursor, marks: map<Cursor, int>)

  /** The cell a tile goes to: the next row's start once the row is full. */
  function Landing(c: Cursor, width: nat): Cursor {
    if c.x >= width then Cursor(0, c.y + 1) else c
  }

  /** One index of `appendIndexes`. */
  function Put(p: Pen, t: TextIndex, startX: int, width: nat): Pen {
    match t
    case NewLine => Pen(Cursor(startX, p.at.y + 1), p.marks)
    case Tile(n) =>
      var c := Landing(p.at, width);
      Pen(Cursor(c.x + 1, c.y), p.marks[c := n])
  }

  /** The first `n` indexes, in order. */
  function Written(p: Pen, indexes: seq<TextIndex>, n: nat, startX: int, width: nat): Pen
    requires n <= |indexes|
  {
    if n == 0 then p else Put(Written(p, indexes, n - 1, startX, width), indexes[n - 1], startX, width)
  }

  /** The cursor is at most one past the row's end, and every tile went into a column of the layer. */
  predicate InRow(p: Pen, width: nat) {
    && 0 <= p.at.x <= width
    && forall c :: c in p.marks ==> 0 <= c.x < width
  }

  /**
   * From a cursor within the row, with a line start within the row, the
   * cursor stays within `0..width` and no tile lands left or right of the
   * layer; the cursor never moves up.
   */
  lemma {:induction false} CursorInRow(p: Pen, indexes: seq<TextIndex>, n: nat, startX: int, width: nat)
    requires n <= |indexes| && width >= 1 && 0 <= startX <= width
    requires InRow(p, width)
    ensures InRow(Written(p, indexes, n, startX, width), width)
    ensures Written(p, indexes, n, startX, width).at.y >= p.at.y
  {
    if n > 0 {
      CursorInRow(p, indexes, n - 1, startX, width);
    }
  }

  /**
   * Tiles without line breaks that fit in the rest of the row go side by side
   * from the cursor, which ends just after the last of them.
   */
  lemma {:induction false} RowWrite(p: Pen, indexes: seq<TextIndex>, n: nat, startX: int, width: nat)
    requires n <= |indexes|
    requires forall i :: 0 <= i < |indexes| ==> indexes[i].Tile?
    requires p.at.x + n <= width
    ensures var w := Written(p, indexes, n, startX, width);
      && w.at == Cursor(p.at.x + n, p.at.y)
      && forall x :: p.at.x <= x < p.at.x + n ==>
           (Cursor(x, p.at.y) in w.marks && w.marks[Cursor(x, p.at.y)] == indexes[x - p.at.x].index)
  {
    if n > 0 {
      RowWrite(p, indexes, n - 1, startX, width);
      var prev := Written(p, indexes, n - 1, startX, width);
      assert Written(p, indexes, n, startX, width).marks == prev.marks[prev.at := indexes[n - 1].index];
    }
  }

  /**
   * A tile after a full row goes to the start of the next row, and a line
   * break there moves down only once: filling a row exactly leaves no blank
   * line.
   */
  lemma FullRow(p: Pen, t: TextIndex, startX: int, width: nat)
    requires p.at.x == width
    ensures t.Tile? ==> Put(p, t, startX, width).marks == p.marks[Cursor(0, p.at.y + 1) := t.index]
    ensures Put(p, t, startX, width).at ==
      if t.Tile? then Cursor(1, p.at.y + 1) else Cursor(startX, p.at.y + 1)
  {
  }

  /** A text layer. */
  class Text {
    const layer: array2<int>
    var cursor: Cursor

    function Width(): nat { layer.Length1 }
    function Height(): nat { layer.Length0 }

    /** A blank layer of `charWidth` by `charHeight` tiles with the cursor at the origin. */
    constructor(charWidth: nat, charHeight: nat)
      ensures Width() == charWidth && Height() == charHeight
      ensures cursor == Cursor(0, 0)
      ensures forall y, x :: 0 <= y < charHeight && 0 <= x < charWidth ==> layer[y, x] == -1
      ensures fresh(layer)
    {
      layer := new int[charHeight, charWidth]((y, x) => -1);
      cursor := Cursor(0, 0);
    }

    /** `setCursor`. */
    method SetCursor(x: int, y: int)
      modifies this
      ensures cursor == Cursor(x, y)
    {
      cursor := Cursor(x, y);
    }

    /** The tile layer's `putTileAt`: a cell off the layer is left alone. */
    method PutTileAt(n: int, x: int, y: int)
      modifies layer
      ensures forall yy, xx :: 0 <= yy < Height() && 0 <= xx < Width() ==>
        layer[yy, xx] == if xx == x && yy == y then n else old(layer[yy, xx])
    {
      if 0 <= y < Height() && 0 <= x < Width() {
        layer[y, x] := n;
      }
    }

    /** `clear`: every tile empty and the cursor at the origin. */
    method Clear()
      modifies this, layer
      ensures cursor == Cursor(0, 0)
      ensures forall y, x :: 0 <= y < Height() && 0 <= x < Width() ==> layer[y, x] == -1
    {
      for y := 0 to Height()
        invariant forall yy, xx :: 0 <= yy < y && 0 <= xx < Width() ==> layer[yy, xx] == -1
      {
        for x := 0 to Width()
          invariant forall yy, xx :: 0 <= yy < y && 0 <= xx < Width() ==> layer[yy, xx] == -1
          invariant forall xx :: 0 <= xx < x ==> layer[y, xx] == -1
        {
          layer[y, x] := -1;
        }
      }
      cursor := Cursor(0, 0);
    }

    /**
     * `appendIndexes`: from `at` if given, else from the cursor, each index
     * goes through `Put`; a line break returns to column 0, or with `indent`
     * to the column the append started at.
     */
    method AppendIndexes(indexes: seq<TextIndex>, at: Option<Cursor>, indent: bool)
      modifies this, layer
      ensures var start := if at.Some? then at.value else old(cursor);
        var w := Written(Pen(start, map[]), indexes, |indexes|, if indent then start.x else 0, Width());
        && cursor == w.at
        && forall y, x :: 0 <= y < Height() && 0 <= x < Width() ==>
             layer[y, x] == if Cursor(x, y) in w.marks then w.marks[Cursor(x, y)] else old(layer[y, x])
    {
      if at.Some? {
        cursor := at.value;
      }
      var startX := if indent then cursor.x else 0;
      ghost var start := cursor;
      for i := 0 to |indexes|
        invariant var w := Written(Pen(start, map[]), indexes, i, startX, Width());
          && cursor == w.at
          && forall y, x :: 0 <= y < Height() && 0 <= x < Width() ==>
               layer[y, x] == if Cursor(x, y) in w.marks then w.marks[Cursor(x, y)] else old(layer[y, x])
      {
        match indexes[i] {
          case NewLine =>
            cursor := Cursor(startX, cursor.y + 1);
          case Tile(n) =>
            if cursor.x >= Width() {
              cursor := Cursor(0, cursor.y + 1);
            }
            PutTileAt(n, cursor.x, cursor.y);
            cursor := cursor.(x := cursor.x + 1);
        }
      }
    }

    /** `appendText`: parse, then append; a failed parse changes nothing. */
    method AppendText(text: string, at: Option<Cursor>, indent: bool) returns (error: Option<string>)
      modifies this, layer
      ensures var r := Parsed(SpecialText, text);
        && (r.Failure? ==> (error == Some(r.error) && cursor == old(cursor)
              && forall y, x :: 0 <= y < Height() && 0 <= x < Width() ==> layer[y, x] == old(layer[y, x])))
        && (r.Success? ==> (error == None
              && var start := if at.Some? then at.value else old(cursor);
                 var w := Written(Pen(start, map[]), r.value, |r.value|, if indent then start.x else 0, Width());
                 && cursor == w.at
                 && forall y, x :: 0 <= y < Height() && 0 <= x < Width() ==>
                      layer[y, x] == if Cursor(x, y) in w.marks then w.marks[Cursor(x, y)] else old(layer[y, x])))
    {
      var r := ParseText(SpecialText, text);
      if r.Failure? {
        return Some(r.error);
      }
      AppendIndexes(r.value, at, indent);
      error := None;
    }

    /** `setText`: clear, then append from `(x, y)`; a failed parse leaves the layer cleared. */
    method SetText(text: string, x: int, y: int) returns (error: Option<string>)
      modifies this, layer
      ensures var r := Parsed(SpecialText, text);
        && (r.Failure? ==> (error == Some(r.error) && cursor == Cursor(0, 0)
              && forall yy, xx :: 0 <= yy < Height() && 0 <= xx < Width() ==> layer[yy, xx] == -1))
        && (r.Success? ==> (error == None
              && var w := Written(Pen(Cursor(x, y), map[]), r.value, |r.value|, 0, Width());
                 && cursor == w.at
                 && forall yy, xx :: 0 <= yy < Height() && 0 <= xx < Width() ==>
                      layer[yy, xx] == if Cursor(xx, yy) in w.marks then w.marks[Cursor(xx, yy)] else -1))
    {
      Clear();
      error := AppendText(text, Some(Cursor(x, y)), false);
    }

    /**
     * `scroll`: the rows move up by `lines`, top row first, and the bottom
     * `lines` rows are emptied; the cursor stays where it is.
     */
    method Scroll(lines: nat)
      requires lines <= Height()
      modifies layer
      ensures forall y, x :: 0 <= y < Height() - lines && 0 <= x < Width() ==> layer[y, x] == old(layer[y + lines, x])
      ensures forall y, x :: Height() - lines <= y < Height() && 0 <= x < Width() ==> layer[y, x] == -1
    {
      for y := 0 to Height() - lines
        invariant forall yy, xx :: 0 <= yy < y && 0 <= xx < Width() ==> layer[yy, xx] == old(layer[yy + lines, xx])
        invariant forall yy, xx :: y <= yy < Height() && 0 <= xx < Width() ==> layer[yy, xx] == old(layer[yy, xx])
      {
        for x := 0 to Width()
          invariant forall yy, xx :: 0 <= yy < y && 0 <= xx < Width() ==> layer[yy, xx] == old(layer[yy + lines, xx])
          invariant forall xx :: 0 <= xx < x ==> layer[y, xx] == old(layer[y + lines, xx])
          invariant forall yy, xx :: y <= yy < Height() && 0 <= xx < Width() && (yy != y || xx >= x) ==>
            layer[yy, xx] == old(layer[yy, xx])
        {
          layer[y, x] := layer[y + lines, x];
        }
      }
      for y := Height() - lines to Height()
        invariant forall yy, xx :: 0 <= yy < Height() - lines && 0 <= xx < Width() ==> layer[yy, xx] == old(layer[yy + lines, xx])
        invariant forall yy, xx :: Height() - lines <= yy < y && 0 <= xx < Width() ==> layer[yy, xx] == -1
      {
        for x := 0 to Width()
          invariant forall yy, xx :: 0 <= yy < Height() - lines && 0 <= xx < Width() ==> layer[yy, xx] == old(layer[yy + lines, xx])
          invariant forall yy, xx :: Height() - lines <= yy < y && 0 <= xx < Width() ==> layer[yy, xx] == -1
          invariant forall xx :: 0 <= xx < x ==> layer[y, xx] == -1
        {
          layer[y, x] := -1;
        }
      }
    }
  }
}
