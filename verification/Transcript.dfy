/** The text that the console has been given, as an unbounded list of eagerly wrapped lines,
    and the grid of characters that its last lines form. */
module Transcript {
  import opened Utf8

  datatype Item = Newline | Return | Char(cp: nat)

  /** `x` is the column of the cursor in the last line. */
  datatype Text = Text(lines: seq<seq<nat>>, x: nat)

  ghost predicate TextValid(t: Text, cols: nat) {
    t.lines != [] && t.x <= |Last(t)| && t.x < cols
  }

  function Last(t: Text): seq<nat>
    requires t.lines != []
  {
    t.lines[|t.lines| - 1]
  }

  const EMPTY: Text := Text([[]], 0)

  function Break(t: Text): Text { Text(t.lines + [[]], 0) }

  /** Put a character at the cursor, over what a carriage return may have left there. */
  function Put(t: Text, c: nat): Text
    requires t.lines != [] && t.x <= |Last(t)|
  {
    var l := Last(t);
    var l' := if t.x < |l| then l[t.x := c] else l + [c];
    Text(t.lines[|t.lines| - 1 := l'], t.x + 1)
  }

  function Feed(t: Text, item: Item, cols: nat): (t': Text)
    requires TextValid(t, cols)
    ensures TextValid(t', cols)
  {
    match item
    case Newline => Break(t)
    case Return => t.(x := 0)
    case Char(c) => if t.x + 1 >= cols then Break(Put(t, c)) else Put(t, c)
  }

  function FeedAll(t: Text, items: seq<Item>, cols: nat): (t': Text)
    requires TextValid(t, cols)
    ensures TextValid(t', cols)
  {
    if items == [] then t
    else Feed(FeedAll(t, items[..|items| - 1], cols), items[|items| - 1], cols)
  }

  /** After a carriage return a character replaces the first cell of the same line. */
  lemma {:induction false} ReturnOverwrites(t: Text, c: nat, cols: nat)
    requires TextValid(t, cols) && t.lines[|t.lines| - 1] != [] && 1 < cols
    ensures var n := |t.lines| - 1;
            var l: seq<nat> := t.lines[n][0 := c];
            Feed(Feed(t, Return, cols), Char(c), cols) == Text(t.lines[n := l], 1)
  {
  }

  /** What `write` makes of the bytes of a string. */
  function Items(s: seq<Byte>): seq<Item> {
    if s == [] then []
    else if s[0] == NEWLINE then [Newline] + Items(s[1..])
    else
      var (cp, n) := DecodeOne(s);
      [Char(cp)] + Items(s[n..])
  }

  function ItemOf(c: nat): Item { if c == NEWLINE then Newline else Char(c) }

  /** For encoded text the items are its characters, line feeds being line breaks. */
  lemma {:induction false} ItemsOfText(cs: seq<nat>)
    requires forall i :: 0 <= i < |cs| ==> Scalar(cs[i])
    ensures Items(EncodeAll(cs)) == seq(|cs|, i requires 0 <= i < |cs| => ItemOf(cs[i]))
  {
    if cs != [] {
      var s, rest := EncodeAll(cs), EncodeAll(cs[1..]);
      DecodeEncoded(cs[0], rest);
      assert s[|Encode(cs[0])|..] == rest;
      ItemsOfText(cs[1..]);
      assert s[0] == NEWLINE <==> cs[0] == NEWLINE;
      assert Items(s) == [ItemOf(cs[0])] + Items(rest);
    }
  }

  /** The code points of a list of items. */
  function Points(items: seq<Item>): seq<nat>
    requires forall i :: 0 <= i < |items| ==> !items[i].Return?
  {
    seq(|items|, i requires 0 <= i < |items| => if items[i].Newline? then NEWLINE else items[i].cp)
  }

  lemma {:induction false} ItemsNext(s: seq<Byte>)
    requires s != []
    ensures Items(s) == [if s[0] == NEWLINE then Newline else Char(DecodeOne(s).0)] + Items(s[DecodeOne(s).1..])
  {
  }

  /** `write` sees exactly the code points of the decoder, whatever the bytes. */
  lemma {:induction false} ItemsDecode(s: seq<Byte>)
    ensures forall i :: 0 <= i < |Items(s)| ==> !Items(s)[i].Return?
    ensures Points(Items(s)) == DecodeAll(s)
  {
    if s != [] {
      ItemsNext(s);
      ItemsDecode(s[DecodeOne(s).1..]);
      assert s[0] == NEWLINE ==> DecodeOne(s) == (Gather(s, 1), 1);
    }
  }

  /** Whatever bytes come before it, text that does not start inside a sequence is written as
      it would be on its own. */
  lemma {:induction false} ItemsLocal(a: seq<Byte>, b: seq<Byte>)
    requires StartsFresh(b)
    ensures Items(a + b) == Items(a) + Items(b)
    decreases |a|
  {
    if a == [] {
      assert a + b == b;
    } else {
      DecodeOneLocal(a, b);
      var n := DecodeOne(a).1;
      assert (a + b)[n..] == a[n..] + b;
      ItemsNext(a);
      ItemsNext(a + b);
      ItemsLocal(a[n..], b);
    }
  }

  /** Bytes that lead nothing are written as one replacement character each. */
  lemma {:induction false} StrayItems(s: seq<Byte>)
    requires forall i :: 0 <= i < |s| ==> Continuation(s[i])
    ensures Items(s) == seq(|s|, _ => Char(REPLACEMENT))
  {
    if s != [] {
      assert DecodeOne(s) == (REPLACEMENT, 1);
      ItemsNext(s);
      StrayItems(s[1..]);
    }
  }

  /** A sequence cut short before other text is written as one replacement character per stray
      byte, and the text follows unharmed. */
  lemma {:induction false} TruncatedItems(c: nat, k: nat, text: seq<Byte>)
    requires Scalar(c) && 0 < k < |Encode(c)| && StartsFresh(text)
    ensures Items(Encode(c)[..k] + text) == seq(k, _ => Char(REPLACEMENT)) + Items(text)
  {
    var s := Encode(c)[..k];
    EncodedShape(c);
    ItemsLocal(s, text);
    assert !Continuation(ByteAt(s, k));
    assert DecodeOne(s) == (REPLACEMENT, 1) && s[0] >= 128;
    ItemsNext(s);
    StrayItems(s[1..]);
  }

  /** An overlong line feed is a character to be drawn: only the byte itself breaks the line. */
  lemma {:induction false} OverlongLineFeed() returns (s: seq<Byte>)
    ensures s == [0xC0, 0x8A] && DecodeAll(s) == [NEWLINE] && Items(s) == [Char(NEWLINE)]
  {
    s := [0xC0, 0x8A];
    assert Gather(s, 1) == 0 && Gather(s, 2) == 10;
    assert DecodeOne(s) == (10, 2);
    ItemsNext(s);
    assert s[2..] == [];
  }

  // ---------------------------------------------------------------- what the transcript is

  function Chars(l: seq<nat>): seq<Item> { seq(|l|, i requires 0 <= i < |l| => Char(l[i])) }

  /** The wrapping of a text without carriage returns: each line but the last holds the next
      `cols` characters, or fewer and then a line feed follows in the text; the last line holds
      the rest, which is shorter than a line. */
  ghost predicate IsWrapping(lines: seq<seq<nat>>, items: seq<Item>, cols: nat) {
    if |lines| == 0 then false
    else
      var l := lines[0];
      if |lines| == 1 then items == Chars(l) && |l| < cols
      else
        && |l| <= |items| && items[..|l|] == Chars(l)
        && if |l| == cols then IsWrapping(lines[1..], items[|l|..], cols)
           else |l| < cols && |l| < |items| && items[|l|].Newline? && IsWrapping(lines[1..], items[|l| + 1..], cols)
  }

  lemma {:induction false} CharsAt(items: seq<Item>, l: seq<nat>, i: nat)
    requires |l| <= |items| && items[..|l|] == Chars(l) && i < |l|
    ensures items[i] == Char(l[i])
  {
    assert items[i] == items[..|l|][i];
  }

  /** Two wrappings of a text start with the same line. */
  lemma {:induction false} FirstLine(a: seq<seq<nat>>, b: seq<seq<nat>>, items: seq<Item>, cols: nat)
    requires IsWrapping(a, items, cols) && IsWrapping(b, items, cols) && |b| > 1
    ensures |a| > 1 && a[0] == b[0]
  {
    assert items[..|a[0]|] == Chars(a[0]);
    if |a[0]| < |b[0]| && |a[0]| < |items| { CharsAt(items, b[0], |a[0]|); }
    if |b[0]| < |a[0]| { CharsAt(items, a[0], |b[0]|); }
    assert |a[0]| == |b[0]|;
    forall i: nat | i < |a[0]|
      ensures a[0][i] == b[0][i]
    {
      CharsAt(items, a[0], i);
      CharsAt(items, b[0], i);
    }
  }

  /** The wrapping of a text is unique. */
  lemma {:induction false} WrappingUnique(a: seq<seq<nat>>, b: seq<seq<nat>>, items: seq<Item>, cols: nat)
    requires IsWrapping(a, items, cols) && IsWrapping(b, items, cols)
    ensures a == b
    decreases |a|
  {
    if |b| > 1 {
      FirstLine(a, b, items, cols);
      WrappingUnique(a[1..], b[1..], if |a[0]| == cols then items[cols..] else items[|a[0]| + 1..], cols);
      assert a == [a[0]] + a[1..] && b == [b[0]] + b[1..];
    } else if |a| > 1 {
      FirstLine(b, a, items, cols);
    } else {
      SameChars(a[0], b[0]);
    }
  }

  lemma {:induction false} SameChars(k: seq<nat>, l: seq<nat>)
    requires Chars(k) == Chars(l)
    ensures k == l
  {
    assert |k| == |Chars(k)| == |l|;
    forall i: nat | i < |k|
      ensures k[i] == l[i]
    {
      assert Chars(k)[i] == Char(k[i]) && Chars(l)[i] == Char(l[i]);
    }
  }

  /** The lines after the first wrap the items after the first line. */
  lemma {:induction false} WrapTail(lines: seq<seq<nat>>, items: seq<Item>, cols: nat) returns (n: nat)
    requires IsWrapping(lines, items, cols) && |lines| > 1
    ensures n == (if |lines[0]| == cols then cols else |lines[0]| + 1) <= |items|
    ensures IsWrapping(lines[1..], items[n..], cols)
  {
    n := if |lines[0]| == cols then cols else |lines[0]| + 1;
  }

  lemma {:induction false} WrapHead(l: seq<nat>, rest: seq<seq<nat>>, items: seq<Item>, n: nat, more: seq<Item>,
                                    cols: nat)
    requires n == (if |l| == cols then cols else |l| + 1) <= |items| && rest != []
    requires |l| <= cols && items[..|l|] == Chars(l) && (|l| < cols ==> items[|l|].Newline?)
    requires IsWrapping(rest, items[n..] + more, cols)
    ensures IsWrapping([l] + rest, items + more, cols)
  {
    var all := items + more;
    assert all[n..] == items[n..] + more && all[..|l|] == items[..|l|];
    assert ([l] + rest)[1..] == rest;
  }

  /** Text added at the end changes the last line only. */
  lemma {:induction false} WrapMore(lines: seq<seq<nat>>, items: seq<Item>, cols: nat, end: seq<seq<nat>>,
                                    more: seq<Item>)
    requires IsWrapping(lines, items, cols) && IsWrapping(end, Chars(lines[|lines| - 1]) + more, cols)
    ensures IsWrapping(lines[..|lines| - 1] + end, items + more, cols)
    decreases |lines|
  {
    var init := lines[..|lines| - 1];
    if |lines| == 1 {
      assert init + end == end;
    } else {
      var tail := lines[1..];
      var n := WrapTail(lines, items, cols);
      WrapMore(tail, items[n..], cols, end, more);
      var rest := tail[..|tail| - 1] + end;
      WrapHead(lines[0], rest, items, n, more, cols);
      assert [lines[0]] + rest == init + end;
    }
  }

  /** Of the last line, one character more. */
  lemma {:induction false} WrapEnd(l: seq<nat>, c: nat, cols: nat)
    requires |l| < cols
    ensures |l| + 1 < cols ==> IsWrapping([l + [c]], Chars(l) + [Char(c)], cols)
    ensures |l| + 1 == cols ==> IsWrapping([l + [c], []], Chars(l) + [Char(c)], cols)
    ensures IsWrapping([l, []], Chars(l) + [Newline], cols)
  {
    assert Chars(l + [c]) == Chars(l) + [Char(c)];
    assert [l + [c], []][1..] == [[]] && [l, []][1..] == [[]];
    assert IsWrapping([[]], [], cols);
    assert (Chars(l) + [Char(c)])[..|l| + 1] == Chars(l) + [Char(c)];
    assert (Chars(l) + [Newline])[..|l|] == Chars(l);
  }

  ghost predicate Wrapped(t: Text, items: seq<Item>, cols: nat) {
    TextValid(t, cols) && t.x == |Last(t)| && IsWrapping(t.lines, items, cols)
  }

  lemma {:induction false} FeedWrapped(t: Text, items: seq<Item>, item: Item, cols: nat)
    requires Wrapped(t, items, cols) && !item.Return?
    ensures Wrapped(Feed(t, item, cols), items + [item], cols)
  {
    var l, init := Last(t), t.lines[..|t.lines| - 1];
    match item {
      case Newline =>
        WrapEnd(l, 0, cols);
        WrapMore(t.lines, items, cols, [l, []], [item]);
        assert Break(t).lines == init + [l, []];
      case Char(c) =>
        WrapEnd(l, c, cols);
        if t.x + 1 >= cols {
          WrapMore(t.lines, items, cols, [l + [c], []], [item]);
          assert Break(Put(t, c)).lines == init + [l + [c], []];
        } else {
          WrapMore(t.lines, items, cols, [l + [c]], [item]);
          assert Put(t, c).lines == init + [l + [c]];
        }
    }
  }

  /** The transcript of a text without carriage returns is its wrapping, with the cursor at the
      end. */
  lemma {:induction false} TranscriptWrapped(items: seq<Item>, cols: nat)
    requires 0 < cols && forall i :: 0 <= i < |items| ==> !items[i].Return?
    ensures Wrapped(FeedAll(EMPTY, items, cols), items, cols)
  {
    if items == [] {
      assert Chars([]) == [];
    } else {
      var before := items[..|items| - 1];
      TranscriptWrapped(before, cols);
      FeedWrapped(FeedAll(EMPTY, before, cols), before, items[|items| - 1], cols);
      assert before + [items[|items| - 1]] == items;
    }
  }

  /** What `write` puts on a fresh console: the one wrapping of what the decoder sees. */
  lemma {:induction false} WrittenText(s: seq<Byte>, cols: nat, lines: seq<seq<nat>>)
    requires 0 < cols
    ensures FeedAll(EMPTY, Items(s), cols).lines == lines <==> IsWrapping(lines, Items(s), cols)
  {
    ItemsDecode(s);
    TranscriptWrapped(Items(s), cols);
    if IsWrapping(lines, Items(s), cols) {
      WrappingUnique(FeedAll(EMPTY, Items(s), cols).lines, lines, Items(s), cols);
    }
  }

  // ---------------------------------------------------------------- the visible grid

  datatype Cell = Blank | Glyph(cp: nat)

  /** Index of the line at the top of a screen of `rows` rows. */
  function Top(t: Text, rows: nat): nat {
    if |t.lines| > rows then |t.lines| - rows else 0
  }

  /** The character at row r, column c of the screen. */
  function CellAt(t: Text, rows: nat, r: nat, c: nat): Cell {
    var l := Top(t, rows) + r;
    if l < |t.lines| && c < |t.lines[l]| then Glyph(t.lines[l][c]) else Blank
  }

  /** Screen row of the cursor. */
  function CursorRow(t: Text, rows: nat): nat
    requires t.lines != [] && 0 < rows
  {
    |t.lines| - 1 - Top(t, rows)
  }

  lemma {:induction false} PutCell(t: Text, c: nat, rows: nat, r: nat, k: nat)
    requires t.lines != [] && t.x <= |Last(t)| && 0 < rows
    ensures CellAt(Put(t, c), rows, r, k)
         == if r == CursorRow(t, rows) && k == t.x then Glyph(c) else CellAt(t, rows, r, k)
    ensures CursorRow(Put(t, c), rows) == CursorRow(t, rows) < rows
  {
  }

  /** A line break moves the cursor down while there is room, and the grid up after that. */
  lemma {:induction false} BreakCell(t: Text, rows: nat, r: nat, k: nat)
    requires t.lines != [] && 0 < rows
    ensures CursorRow(t, rows) + 1 < rows ==>
              CellAt(Break(t), rows, r, k) == CellAt(t, rows, r, k)
              && CursorRow(Break(t), rows) == CursorRow(t, rows) + 1
    ensures CursorRow(t, rows) + 1 == rows && r < rows ==>
              CellAt(Break(t), rows, r, k) == (if r + 1 < rows then CellAt(t, rows, r + 1, k) else Blank)
              && CursorRow(Break(t), rows) == CursorRow(t, rows)
  {
  }
}
