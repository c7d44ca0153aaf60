// The 3D town scene (ui/town/town.js): the bulletin board's window of the
// six latest distinct wall messages, its word wrapping and line layout, and
// the reconciliation of the agent tree and wall events into the scene's
// geese. Canvas drawing, text measurement (`measureText`, a parameter
// here), the ring placement's trigonometry and the random draws are
// outside the model.

module Town3D {
  import opened Wrappers
  import opened Text
  import opened Goose3D

  /** A wall message as the scene sees it; missing fields are "". */
  datatype BoardMsg = BoardMsg(timestamp: string, senderId: string, message: string)

  /** `wallMsgKey`: the de-duplication key `timestamp:sender:message`. */
  function WallMsgKey(m: BoardMsg): string {
    m.timestamp + [':'] + m.senderId + [':'] + m.message
  }

  /** Distinct messages have distinct keys as long as the timestamp and
      the sender hold no colon (the message text may hold any). */
  lemma KeyDeterminesMessage(m1: BoardMsg, m2: BoardMsg)
    requires ':' !in m1.timestamp && ':' !in m1.senderId
    requires ':' !in m2.timestamp && ':' !in m2.senderId
    ensures WallMsgKey(m1) == WallMsgKey(m2) <==> m1 == m2
  {
    if WallMsgKey(m1) == WallMsgKey(m2) {
      KeyPieces(m1);
      KeyPieces(m2);
      var k := Split(WallMsgKey(m1), ':');
      assert k[0] == m1.timestamp == m2.timestamp;
      assert k[1] == m1.senderId == m2.senderId;
      assert k[2..] == Split(m1.message, ':') == Split(m2.message, ':');
      JoinSplit(m1.message, ':');
      JoinSplit(m2.message, ':');
    }
  }

  /** ISO-8601 timestamps all have one length: with timestamps of equal
      length the timestamp may hold colons, and distinct messages still
      have distinct keys when the sender holds none. */
  lemma KeyDeterminesMessageSameLength(m1: BoardMsg, m2: BoardMsg)
    requires |m1.timestamp| == |m2.timestamp|
    requires ':' !in m1.senderId && ':' !in m2.senderId
    ensures WallMsgKey(m1) == WallMsgKey(m2) <==> m1 == m2
  {
    if WallMsgKey(m1) == WallMsgKey(m2) {
      var n := |m1.timestamp|;
      var k1 := WallMsgKey(m1);
      var k2 := WallMsgKey(m2);
      assert k1[..n] == m1.timestamp && k2[..n] == m2.timestamp;
      assert k1[n + 1..] == m1.senderId + [':'] + m1.message;
      assert k2[n + 1..] == m2.senderId + [':'] + m2.message;
      FirstColonSplits(m1.senderId, m1.message, m2.senderId, m2.message);
    }
  }

  /** The index of the first colon of `t`, or its length when it has none. */
  function ColonIndex(t: string): nat {
    if |t| == 0 then 0 else if t[0] == ':' then 0 else 1 + ColonIndex(t[1..])
  }

  lemma {:induction false} ColonIndexAfter(a: string, x: string)
    requires ':' !in a
    ensures ColonIndex(a + [':'] + x) == |a|
  {
    if |a| > 0 {
      assert (a + [':'] + x)[1..] == a[1..] + [':'] + x;
      ColonIndexAfter(a[1..], x);
    }
  }

  /** A colon-free piece before a colon is fixed by the text. */
  lemma FirstColonSplits(a: string, x: string, b: string, y: string)
    requires ':' !in a && ':' !in b
    requires a + [':'] + x == b + [':'] + y
    ensures a == b && x == y
  {
    var t := a + [':'] + x;
    ColonIndexAfter(a, x);
    ColonIndexAfter(b, y);
    assert a == t[..|a|] == b;
    assert x == t[|a| + 1..] == y;
  }

  lemma KeyPieces(m: BoardMsg)
    requires ':' !in m.timestamp && ':' !in m.senderId
    ensures Split(WallMsgKey(m), ':') == [m.timestamp, m.senderId] + Split(m.message, ':')
  {
    SplitAfterPiece(m.senderId, ':', m.message);
    assert WallMsgKey(m) == m.timestamp + [':'] + (m.senderId + [':'] + m.message);
    SplitAfterPiece(m.timestamp, ':', m.senderId + [':'] + m.message);
  }

  // ------------------------------------------------------ the window

  const WindowSize := 6

  /** Appending to the window drops its oldest message beyond six. */
  function Window(msgs: seq<BoardMsg>): seq<BoardMsg> {
    if |msgs| > WindowSize then msgs[1..] else msgs
  }

  /** The newest message ends the window, which never exceeds six, and
      overflow costs exactly the oldest message. */
  lemma WindowRules(recent: seq<BoardMsg>, m: BoardMsg)
    requires |recent| <= WindowSize
    ensures var w := Window(recent + [m]);
      |w| <= WindowSize && w[|w| - 1] == m &&
      (|recent| < WindowSize ==> w == recent + [m]) &&
      (|recent| == WindowSize ==> w == recent[1..] + [m])
  {
  }

  /** The board after the messages `msgs` pass through
      `updateBoardTexture` in order, as the window and the keys seen. */
  function Fed(recent: seq<BoardMsg>, seen: set<string>, msgs: seq<BoardMsg>): (seq<BoardMsg>, set<string>)
  {
    if |msgs| == 0 then (recent, seen)
    else
      var prior := Fed(recent, seen, msgs[..|msgs| - 1]);
      var m := msgs[|msgs| - 1];
      if WallMsgKey(m) in prior.1 then prior
      else (Window(prior.0 + [m]), prior.1 + {WallMsgKey(m)})
  }

  /** Feeding remembers every key fed, and feeding the same messages a
      second time changes nothing. */
  lemma {:induction false} FedTwiceIsFedOnce(recent: seq<BoardMsg>, seen: set<string>, msgs: seq<BoardMsg>)
    ensures Fed(recent, seen, msgs).1 == seen + KeysOf(msgs)
    ensures var once := Fed(recent, seen, msgs);
      Fed(once.0, once.1, msgs) == once
  {
    FedSeen(recent, seen, msgs);
    var once := Fed(recent, seen, msgs);
    FedKnown(once.0, once.1, msgs);
  }

  lemma {:induction false} FedSeen(recent: seq<BoardMsg>, seen: set<string>, msgs: seq<BoardMsg>)
    ensures Fed(recent, seen, msgs).1 == seen + KeysOf(msgs)
  {
    if |msgs| > 0 {
      FedSeen(recent, seen, msgs[..|msgs| - 1]);
    }
  }

  /** Messages whose keys were all seen leave the board as it is. */
  lemma {:induction false} FedKnown(recent: seq<BoardMsg>, seen: set<string>, msgs: seq<BoardMsg>)
    requires KeysOf(msgs) <= seen
    ensures Fed(recent, seen, msgs) == (recent, seen)
  {
    if |msgs| > 0 {
      FedKnown(recent, seen, msgs[..|msgs| - 1]);
    }
  }

  // ------------------------------------------------------ word wrapping

  /** The words of a sequence of lines, in order. */
  function WordsOf(lines: seq<string>): seq<string> {
    if |lines| == 0 then [] else Split(lines[0], ' ') + WordsOf(lines[1..])
  }

  lemma {:induction false} WordsOfAppend(lines: seq<string>, line: string)
    ensures WordsOf(lines + [line]) == WordsOf(lines) + Split(line, ' ')
  {
    if |lines| > 0 {
      assert (lines + [line])[1..] == lines[1..] + [line];
      WordsOfAppend(lines[1..], line);
    } else {
      assert (lines + [line])[1..] == [];
    }
  }

  /** The greedy wrap of the remaining `words`, with `current` the line
      being built: a word joins the line unless the joined line is wider
      than `maxWidth` and the line already holds something. */
  function WrapFrom(words: seq<string>, current: string, maxWidth: real,
                    width: string -> real): seq<string>
    decreases |words|
  {
    if |words| == 0 then (if current != "" then [current] else [])
    else
      var test := if current != "" then current + " " + words[0] else words[0];
      if width(test) > maxWidth && current != "" then
        [current] + WrapFrom(words[1..], words[0], maxWidth, width)
      else WrapFrom(words[1..], test, maxWidth, width)
  }

  /** `wrapText` on a text of space-separated words. */
  function Wrapped(text: string, maxWidth: real, width: string -> real): seq<string> {
    WrapFrom(Split(text, ' '), "", maxWidth, width)
  }

  /** What a wrap produces: no empty line, a line wider than the limit is
      a single word, and the lines hold the text's words in their order. */
  predicate GoodWrap(lines: seq<string>, words: seq<string>, maxWidth: real,
                     width: string -> real)
  {
    (forall i :: 0 <= i < |lines| ==> lines[i] != "") &&
    (forall i :: 0 <= i < |lines| ==> width(lines[i]) > maxWidth ==> ' ' !in lines[i]) &&
    NonEmpty(WordsOf(lines)) == NonEmpty(words)
  }

  lemma {:induction false} WrapFromRules(words: seq<string>, current: string, maxWidth: real,
                                         width: string -> real)
    requires forall i :: 0 <= i < |words| ==> ' ' !in words[i]
    requires current != "" && width(current) > maxWidth ==> ' ' !in current
    ensures GoodWrap(WrapFrom(words, current, maxWidth, width),
                     Split(current, ' ') + words, maxWidth, width)
    decreases |words|
  {
    var r := WrapFrom(words, current, maxWidth, width);
    if |words| == 0 {
      if current != "" {
        assert WordsOf([current]) == Split(current, ' ') + WordsOf([]);
      } else {
        assert NonEmpty([""]) == [];
      }
      assert Split(current, ' ') + words == Split(current, ' ');
    } else {
      var w := words[0];
      SplitNoSep(w, ' ');
      var test := if current != "" then current + " " + w else w;
      var rest := words[1..];
      assert words == [w] + rest;
      if width(test) > maxWidth && current != "" {
        WrapFromRules(rest, w, maxWidth, width);
        var tail := WrapFrom(rest, w, maxWidth, width);
        assert r == [current] + tail;
        assert WordsOf(r) == Split(current, ' ') + WordsOf(tail);
        NonEmptyAppend(Split(current, ' '), WordsOf(tail));
        NonEmptyAppend(Split(current, ' '), [w] + rest);
        assert Split(w, ' ') + rest == [w] + rest;
      } else {
        if current != "" {
          assert current + " " + w == current + [' '] + w;
          SplitConcat(current, ' ', w);
          assert Split(current, ' ') + [w] + rest == Split(current, ' ') + ([w] + rest);
        } else {
          NonEmptyAppend([""], words);
          assert NonEmpty([""]) == [];
        }
        assert NonEmpty(Split(test, ' ') + rest) == NonEmpty(Split(current, ' ') + words);
        WrapFromRules(rest, test, maxWidth, width);
      }
    }
  }

  /** `wrapText` meets its purpose for every text, limit and measure. */
  lemma WrappedRules(text: string, maxWidth: real, width: string -> real)
    ensures GoodWrap(Wrapped(text, maxWidth, width), Split(text, ' '), maxWidth, width)
  {
    WrapFromRules(Split(text, ' '), "", maxWidth, width);
    assert Split("", ' ') == [""];
    NonEmptyAppend([""], Split(text, ' '));
  }

  /** `wrapText(ctx, text, maxWidth)`. */
  method WrapText(text: string, maxWidth: real, width: string -> real) returns (lines: seq<string>)
    ensures lines == Wrapped(text, maxWidth, width)
  {
    var words := Split(text, ' ');
    lines := [];
    var current := "";
    var i := 0;
    while i < |words|
      invariant 0 <= i <= |words|
      invariant lines + WrapFrom(words[i..], current, maxWidth, width) == Wrapped(text, maxWidth, width)
    {
      var word := words[i];
      assert words[i..][1..] == words[i + 1..];
      var test := if current != "" then current + " " + word else word;
      if width(test) > maxWidth && current != "" {
        lines := lines + [current];
        current := word;
      } else {
        current := test;
      }
      i := i + 1;
    }
    if current != "" {
      lines := lines + [current];
    }
  }

  // ------------------------------------------------------ board layout

  const MaxWidth: real := 696.0
  const FirstLine: int := 24
  const LineHeight: int := 18
  const MessageGap: int := 8
  const BoardHeight: int := 360
  const MaxLines: nat := 3

  /** A line of text drawn on the board at baseline `y`. */
  datatype DrawnLine = DrawnLine(text: string, y: int)

  /** The board line of a message: `sender: text`, an unknown sender
      shown as `???`. */
  function BoardText(m: BoardMsg): string {
    (if m.senderId != "" then m.senderId else "???") + ": " + m.message
  }

  /** The line shown for wrapped line `j`: the last shown line of a long
      message carries an ellipsis. */
  function Shown(wrapped: seq<string>, j: nat): string
    requires j < |wrapped|
  {
    if j == MaxLines - 1 && |wrapped| > MaxLines then wrapped[j] + "…" else wrapped[j]
  }

  function ShownCount(wrapped: seq<string>): nat {
    if |wrapped| < MaxLines then |wrapped| else MaxLines
  }

  /** The lines a message shows. */
  function Capped(wrapped: seq<string>): (c: seq<string>)
    ensures |c| <= MaxLines
  {
    seq(ShownCount(wrapped), j requires 0 <= j < ShownCount(wrapped) => Shown(wrapped, j))
  }

  /** At most three lines are shown; a message of three lines or fewer
      shows them all, and a longer one shows its first three with an
      ellipsis after the third. */
  lemma CappedRules(wrapped: seq<string>)
    ensures var c := Capped(wrapped);
      |c| <= MaxLines &&
      (|wrapped| <= MaxLines ==> c == wrapped) &&
      (|wrapped| > MaxLines ==> c == wrapped[..2] + [wrapped[2] + "…"])
  {
  }

  /** Lines placed from baseline `y` down, one line height apart. */
  function Placed(shown: seq<string>, y: int): seq<DrawnLine> {
    seq(|shown|, j requires 0 <= j < |shown| => DrawnLine(shown[j], y + LineHeight * j))
  }

  /** The lines each message shows, before layout. */
  function BlockOf(m: BoardMsg, width: string -> real): seq<string> {
    Capped(Wrapped(BoardText(m), MaxWidth, width))
  }

  function Blocks(msgs: seq<BoardMsg>, width: string -> real): seq<seq<string>> {
    seq(|msgs|, i requires 0 <= i < |msgs| => BlockOf(msgs[i], width))
  }

  /** `redrawBoard`'s layout of blocks from baseline `y`: each block's
      lines, a gap after it, and nothing more once the board is full. */
  function LayoutOf(blocks: seq<seq<string>>, y: int): seq<DrawnLine>
    decreases |blocks|
  {
    if |blocks| == 0 then []
    else
      var next := y + LineHeight * |blocks[0]| + MessageGap;
      Placed(blocks[0], y) + (if next > BoardHeight then [] else LayoutOf(blocks[1..], next))
  }

  /** What the board shows for a window of messages. */
  function Layout(msgs: seq<BoardMsg>, width: string -> real): seq<DrawnLine> {
    LayoutOf(Blocks(msgs, width), FirstLine)
  }

  /** Every baseline of `l` lies in [lo, hi]. */
  predicate YsWithin(l: seq<DrawnLine>, lo: int, hi: int) {
    forall k :: 0 <= k < |l| ==> lo <= l[k].y <= hi
  }

  /** The baselines of `l` go strictly down the board. */
  predicate YsIncreasing(l: seq<DrawnLine>) {
    forall k, m :: 0 <= k < m < |l| ==> l[k].y < l[m].y
  }

  lemma PlacedRules(shown: seq<string>, y: int)
    requires |shown| <= MaxLines
    ensures YsWithin(Placed(shown, y), y, y + LineHeight * (MaxLines - 1))
    ensures YsWithin(Placed(shown, y), y, y + LineHeight * |shown| - 1)
    ensures YsIncreasing(Placed(shown, y))
  {
  }

  lemma ConcatRules(p: seq<DrawnLine>, rest: seq<DrawnLine>, lo: int, mid: int, hi: int)
    requires YsWithin(p, lo, mid - 1) && YsIncreasing(p)
    requires YsWithin(rest, mid, hi) && YsIncreasing(rest)
    requires lo <= mid <= hi + 1
    ensures YsWithin(p + rest, lo, hi) && YsIncreasing(p + rest)
  {
    var l := p + rest;
    forall k | 0 <= k < |l| ensures (k < |p| ==> l[k].y < mid) && (k >= |p| ==> mid <= l[k].y) {
      if k >= |p| {
        assert l[k] == rest[k - |p|];
      }
    }
    forall k, m | 0 <= k < m < |l| ensures l[k].y < l[m].y {
      if k >= |p| {
        assert l[k] == rest[k - |p|] && l[m] == rest[m - |p|];
      } else if m < |p| {
        assert l[k] == p[k] && l[m] == p[m];
      } else {
        assert l[k] == p[k] && l[m] == rest[m - |p|];
      }
    }
  }

  /** Every line starts on the board (a block starts no lower than 360
      and holds at most three lines), and lines go down the board in
      order. */
  lemma {:induction false} LayoutBounds(blocks: seq<seq<string>>, y: int)
    requires FirstLine <= y <= BoardHeight
    requires forall i :: 0 <= i < |blocks| ==> |blocks[i]| <= MaxLines
    ensures YsWithin(LayoutOf(blocks, y), y, BoardHeight + LineHeight * (MaxLines - 1))
    ensures YsIncreasing(LayoutOf(blocks, y))
    decreases |blocks|
  {
    if |blocks| > 0 {
      var next := y + LineHeight * |blocks[0]| + MessageGap;
      var p := Placed(blocks[0], y);
      PlacedRules(blocks[0], y);
      if next > BoardHeight {
        assert LayoutOf(blocks, y) == p + [];
      } else {
        var rest := LayoutOf(blocks[1..], next);
        LayoutBounds(blocks[1..], next);
        ConcatRules(p, rest, y, next, BoardHeight + LineHeight * (MaxLines - 1));
      }
    }
  }

  /** The board's lines, for any window: all start within the board, go
      down it in order, and each message shows at most three. */
  lemma BoardBounds(msgs: seq<BoardMsg>, width: string -> real)
    ensures YsWithin(Layout(msgs, width), FirstLine, BoardHeight + LineHeight * (MaxLines - 1))
    ensures YsIncreasing(Layout(msgs, width))
  {
    LayoutBounds(Blocks(msgs, width), FirstLine);
  }

  /** Draws one message's capped lines from baseline `y`, returning the
      baseline below them. */
  method DrawMessage(wrapped: seq<string>, y: int) returns (lines: seq<DrawnLine>, below: int)
    ensures lines == Placed(Capped(wrapped), y)
    ensures below == y + LineHeight * |Capped(wrapped)|
  {
    var count := if |wrapped| < MaxLines then |wrapped| else MaxLines;
    lines := [];
    below := y;
    var j := 0;
    while j < count
      invariant 0 <= j <= count && below == y + LineHeight * j
      invariant lines == Placed(Capped(wrapped)[..j], y)
    {
      var display := wrapped[j];
      if j == MaxLines - 1 && |wrapped| > MaxLines {
        display := display + "…";
      }
      PlacedSnoc(Capped(wrapped), j, y);
      lines := lines + [DrawnLine(display, below)];
      below := below + LineHeight;
      j := j + 1;
    }
    assert Capped(wrapped)[..count] == Capped(wrapped);
  }

  /** The drawing loop of `redrawBoard`. */
  method LayoutBoard(msgs: seq<BoardMsg>, width: string -> real) returns (out: seq<DrawnLine>)
    ensures out == Layout(msgs, width)
  {
    ghost var blocks := Blocks(msgs, width);
    out := [];
    var y := FirstLine;
    var i := 0;
    BoardStart(blocks);
    while i < |msgs|
      invariant |blocks| == |msgs|
      invariant BoardInv(blocks, i, y, out)
    {
      var lines, below := DrawBlock(msgs, width, blocks, i, y, out);
      out := out + lines;
      y := below + MessageGap;
      i := i + 1;
      if y > BoardHeight {
        break;
      }
    }
    if y <= BoardHeight {
      BoardDone(blocks, y, out);
    }
    assert out == LayoutOf(blocks, FirstLine);
  }

  /** One message of the drawing loop: wrapped, capped and placed from baseline `y`. */
  method DrawBlock(msgs: seq<BoardMsg>, width: string -> real, ghost blocks: seq<seq<string>>,
                   i: nat, y: int, ghost out: seq<DrawnLine>) returns (lines: seq<DrawnLine>, below: int)
    requires blocks == Blocks(msgs, width) && i < |msgs| && BoardInv(blocks, i, y, out)
    ensures below + MessageGap > BoardHeight ==> out + lines == LayoutOf(blocks, FirstLine)
    ensures below + MessageGap <= BoardHeight ==> BoardInv(blocks, i + 1, below + MessageGap, out + lines)
  {
    var wrapped := WrapText(BoardText(msgs[i]), MaxWidth, width);
    lines, below := DrawMessage(wrapped, y);
    assert blocks[i] == Capped(wrapped);
    BoardVisit(blocks, i, y, out, lines, below);
  }

  /** The drawing loop's invariant: what is drawn, followed by the layout
      of the remaining blocks, is the whole board. */
  ghost predicate BoardInv(blocks: seq<seq<string>>, i: int, y: int, out: seq<DrawnLine>) {
    0 <= i <= |blocks| && y <= BoardHeight &&
    out + LayoutOf(blocks[i..], y) == LayoutOf(blocks, FirstLine)
  }

  lemma BoardStart(blocks: seq<seq<string>>)
    ensures BoardInv(blocks, 0, FirstLine, [])
  {
    assert blocks[0..] == blocks;
  }

  lemma BoardVisit(blocks: seq<seq<string>>, i: int, y: int, out: seq<DrawnLine>,
                   lines: seq<DrawnLine>, below: int)
    requires BoardInv(blocks, i, y, out) && i < |blocks|
    requires lines == Placed(blocks[i], y)
    requires below == y + LineHeight * |blocks[i]|
    ensures below + MessageGap > BoardHeight ==> out + lines == LayoutOf(blocks, FirstLine)
    ensures below + MessageGap <= BoardHeight ==> BoardInv(blocks, i + 1, below + MessageGap, out + lines)
  {
    var rest := blocks[i..];
    assert rest[0] == blocks[i] && rest[1..] == blocks[i + 1..];
    var next := below + MessageGap;
    if next > BoardHeight {
      assert LayoutOf(rest, y) == lines + [];
      assert lines + [] == lines;
    } else {
      var after := LayoutOf(blocks[i + 1..], next);
      assert LayoutOf(rest, y) == lines + after;
      ConcatAssoc(out, lines, after);
    }
  }

  lemma ConcatAssoc<T>(a: seq<T>, b: seq<T>, c: seq<T>)
    ensures a + (b + c) == (a + b) + c
  {
  }

  /** The drawing loop ends with the whole board. */
  lemma BoardDone(blocks: seq<seq<string>>, y: int, out: seq<DrawnLine>)
    requires BoardInv(blocks, |blocks|, y, out)
    ensures out == LayoutOf(blocks, FirstLine)
  {
    assert blocks[|blocks|..] == [];
  }

  lemma PlacedSnoc(shown: seq<string>, j: nat, y: int)
    requires j < |shown|
    ensures Placed(shown[..j + 1], y) == Placed(shown[..j], y) + [DrawnLine(shown[j], y + LineHeight * j)]
  {
    assert shown[..j + 1][j] == shown[j];
  }

  // ------------------------------------------------------ the scene

  /** A tree child: the fields `updateFromTree` reads, and the role. */
  datatype Child = Child(data: TreeData, role: string)

  /** The scene key of a child: its wall id, else its session id. */
  function ChildKey(c: Child): string {
    if c.data.gtwallId != "" then c.data.gtwallId else c.data.id
  }

  /** The keys a tree names. */
  function TreeKeys(children: seq<Child>): set<string> {
    set i | 0 <= i < |children| && ChildKey(children[i]) != "" :: ChildKey(children[i])
  }

  /** The keys of a run of wall messages. */
  function KeysOf(msgs: seq<BoardMsg>): set<string> {
    if |msgs| == 0 then {} else KeysOf(msgs[..|msgs| - 1]) + {WallMsgKey(msgs[|msgs| - 1])}
  }

  /** A key belongs to a run exactly when one of its messages has it. */
  lemma {:induction false} KeysOfMembers(msgs: seq<BoardMsg>)
    ensures forall j :: 0 <= j < |msgs| ==> WallMsgKey(msgs[j]) in KeysOf(msgs)
    ensures forall k :: k in KeysOf(msgs) ==> exists j :: 0 <= j < |msgs| && WallMsgKey(msgs[j]) == k
  {
    if |msgs| > 0 {
      var init := msgs[..|msgs| - 1];
      KeysOfMembers(init);
      assert forall j :: 0 <= j < |init| ==> init[j] == msgs[j];
    }
  }

  const PenBounds := Bounds(-3.0, 3.0, -12.0, -8.0)
  const Center := Point(0.0, 0.0)

  /** The scene's module state: the geese by key, the board window and the
      keys ever shown, what the board shows, and whether a launch runs. */
  class TownScene {
    const measure: string -> real
    const board: Point
    var recent: seq<BoardMsg>
    var seenKeys: set<string>
    var drawn: seq<DrawnLine>
    var geese: map<string, Goose>
    var launchRunning: bool

    /** The window holds at most six messages, all with distinct keys,
        every one of them among the keys seen. */
    ghost predicate Valid()
      reads this
    {
      |recent| <= WindowSize &&
      (forall i :: 0 <= i < |recent| ==> WallMsgKey(recent[i]) in seenKeys) &&
      (forall i, j :: 0 <= i < j < |recent| ==> WallMsgKey(recent[i]) != WallMsgKey(recent[j]))
    }

    /** Every key has a goose object of its own. */
    ghost predicate Unaliased()
      reads this
    {
      Distinct(geese)
    }

    /** Every goose has the status `StatusAfter` gives for the children
        `cs`, from the statuses `st0` of the geese before them. */
    ghost predicate StatusesAfter(st0: map<string, string>, cs: seq<Child>)
      reads this, geese.Values
    {
      forall k :: k in geese ==>
        Some(geese[k].status) == StatusAfter(cs, k, Lookup(st0, k), launchRunning)
    }

    constructor (measure: string -> real, board: Point)
      ensures this.measure == measure && this.board == board
      ensures recent == [] && seenKeys == {} && drawn == [] && geese == map[] && !launchRunning
      ensures Valid() && Unaliased()
    {
      this.measure := measure;
      this.board := board;
      recent := [];
      seenKeys := {};
      drawn := [];
      geese := map[];
      launchRunning := false;
    }

    /** `redrawBoard`. */
    method RedrawBoard()
      modifies this
      ensures drawn == Layout(recent, measure)
      ensures recent == old(recent) && seenKeys == old(seenKeys)
      ensures geese == old(geese) && launchRunning == old(launchRunning)
    {
      var out := LayoutBoard(recent, measure);
      drawn := out;
    }

    /** `updateBoardTexture`: a message whose key was seen before changes
        nothing; a new one is remembered for good, joins the window last,
        pushing out the oldest beyond six, and the board is redrawn. */
    method UpdateBoardTexture(m: BoardMsg)
      requires Valid()
      modifies this
      ensures Valid()
      ensures WallMsgKey(m) in old(seenKeys) ==>
        recent == old(recent) && seenKeys == old(seenKeys) && drawn == old(drawn)
      ensures WallMsgKey(m) !in old(seenKeys) ==>
        seenKeys == old(seenKeys) + {WallMsgKey(m)} &&
        recent == Window(old(recent) + [m]) && drawn == Layout(recent, measure)
      ensures geese == old(geese) && launchRunning == old(launchRunning)
    {
      var key := WallMsgKey(m);
      if key in seenKeys {
        return;
      }
      seenKeys := seenKeys + {key};
      recent := recent + [m];
      if |recent| > WindowSize {
        recent := recent[1..];
      }
      RedrawBoard();
    }

    /** The `wall_reset` event: every goose, every message and every key
        seen is forgotten, and the board is redrawn empty. */
    method WallReset()
      modifies this
      ensures geese == map[] && recent == [] && seenKeys == {} && drawn == []
      ensures launchRunning == old(launchRunning)
      ensures Valid() && Unaliased()
    {
      geese := map[];
      recent := [];
      seenKeys := {};
      RedrawBoard();
    }

    /** The wall part of the `bootstrap` event: the last six lines of the
        wall pass through `updateBoardTexture` in order. */
    method BootstrapWall(lines: seq<BoardMsg>)
      requires Valid()
      modifies this
      ensures Valid()
      ensures var tail := lines[if |lines| > WindowSize then |lines| - WindowSize else 0..];
        (recent, seenKeys) == Fed(old(recent), old(seenKeys), tail)
      ensures seenKeys == old(seenKeys) + KeysOf(lines[if |lines| > WindowSize then |lines| - WindowSize else 0..])
      ensures seenKeys == old(seenKeys) ==> drawn == old(drawn)
      ensures seenKeys != old(seenKeys) ==> drawn == Layout(recent, measure)
      ensures geese == old(geese) && launchRunning == old(launchRunning)
    {
      var tail := lines[if |lines| > WindowSize then |lines| - WindowSize else 0..];
      var i := 0;
      while i < |tail|
        invariant 0 <= i <= |tail| && Valid()
        invariant (recent, seenKeys) == Fed(old(recent), old(seenKeys), tail[..i])
        invariant seenKeys == old(seenKeys) ==> drawn == old(drawn)
        invariant seenKeys != old(seenKeys) ==> drawn == Layout(recent, measure)
        invariant geese == old(geese) && launchRunning == old(launchRunning)
      {
        FedSeen(old(recent), old(seenKeys), tail[..i]);
        UpdateBoardTexture(tail[i]);
        assert tail[..i + 1][..i] == tail[..i] && tail[..i + 1][i] == tail[i];
        i := i + 1;
      }
      assert tail[..i] == tail;
      FedSeen(old(recent), old(seenKeys), tail);
    }

    /** One child of `onTree`: a child without a key is skipped, an
        unknown key gets a new goose (`SpawnGoose`), placed at the centre
        for the orchestrator and on the ring otherwise, and a known goose
        is refreshed (`RefreshGoose`). */
    method OnChild(c: Child, idx: nat, total: nat, ring: (nat, nat) -> Point, d: Draws, dist: real)
      requires ValidDraws(d) && idx == |geese|
      modifies this, geese.Values
      ensures var k := ChildKey(c);
        if k == "" then geese == old(geese)
        else if k in old(geese) then
          geese == old(geese) &&
          geese[k].Snapshot() ==
            Refreshed(old(geese[k].Snapshot()), geese[k].role, c.data, launchRunning, d, dist) &&
          geese[k].Counters() == Tallied(old(geese[k].Counters()), c.data) &&
          geese[k].status == c.data.status
        else
          k in geese && geese == old(geese)[k := geese[k]] && fresh(geese[k]) &&
          geese[k].role == SpawnRole(c) &&
          geese[k].Snapshot() == Spawned(c, HomeFor(c, idx, total, ring), launchRunning, d) &&
          geese[k].Counters() == SpawnTally(c, launchRunning) &&
          geese[k].status == SpawnStatus(c, launchRunning)
      ensures var k := ChildKey(c);
        forall kk :: kk in old(geese) && (k == "" || k !in old(geese) || old(geese)[kk] != old(geese)[k]) ==>
          unchanged(geese[kk])
      ensures forall kk :: kk in old(geese) && old(geese[kk].inPen) ==> geese[kk].inPen
      ensures var k := ChildKey(c);
        k != "" && PenDue(c, geese[k].role, launchRunning) ==> geese[k].inPen
      ensures recent == old(recent) && seenKeys == old(seenKeys) && drawn == old(drawn)
      ensures launchRunning == old(launchRunning)
    {
      var key := ChildKey(c);
      if key == "" {
        return;
      }
      if key !in geese {
        AddChild(c, key, idx, total, ring, d, dist);
        SpawnedStatus(c, HomeFor(c, idx, total, ring), launchRunning, d);
      } else {
        RefreshChild(c, key, d, dist);
      }
    }

    /** The new-goose half of `OnChild`. */
    method AddChild(c: Child, key: string, idx: nat, total: nat, ring: (nat, nat) -> Point,
                    d: Draws, dist: real)
      requires ValidDraws(d) && key !in geese && idx == |geese|
      modifies this
      ensures key in geese && geese == old(geese)[key := geese[key]]
      ensures fresh(geese[key]) && geese[key].role == (if c.role != "" then c.role else "generic")
      ensures PenDue(c, geese[key].role, launchRunning) ==> geese[key].inPen
      ensures geese[key].Snapshot() == Spawned(c, HomeFor(c, idx, total, ring), launchRunning, d)
      ensures geese[key].Counters() == SpawnTally(c, launchRunning)
      ensures recent == old(recent) && seenKeys == old(seenKeys) && drawn == old(drawn)
      ensures launchRunning == old(launchRunning)
    {
      var home := if c.role == "orchestrator" then Center
                  else ring(idx, if total > 2 then total - 1 else 1);
      var goose := SpawnGoose(c, board, home, launchRunning, d, dist);
      geese := geese[key := goose];
    }

    /** The known-goose half of `OnChild`: only that goose object changes. */
    method RefreshChild(c: Child, key: string, d: Draws, dist: real)
      requires key in geese
      modifies geese[key]
      ensures geese[key].Snapshot() ==
        Refreshed(old(geese[key].Snapshot()), geese[key].role, c.data, launchRunning, d, dist)
      ensures geese[key].Counters() == Tallied(old(geese[key].Counters()), c.data)
      ensures forall kk :: kk in geese && geese[kk] != geese[key] ==> unchanged(geese[kk])
      ensures forall kk :: kk in geese && old(geese[kk].inPen) ==> geese[kk].inPen
      ensures PenDue(c, geese[key].role, launchRunning) ==> geese[key].inPen
    {
      RefreshGoose(geese[key], c.data, launchRunning, d, dist);
    }

    /** `onTree`: the children in order. Every child with a key has a
        goose afterwards, no goose is removed or replaced, and new keys get
        fresh geese; each goose ends with the status `StatusAfter` gives,
        and what happens to it is otherwise `OnChild`'s contract. */
    method OnTree(children: seq<Child>, ring: (nat, nat) -> Point,
                  draw: nat -> Draws, dist: nat -> real)
      requires forall i :: 0 <= i < |children| ==> ValidDraws(draw(i))
      requires Unaliased()
      modifies this, geese.Values
      ensures Unaliased()
      ensures geese.Keys == old(geese).Keys + TreeKeys(children)
      ensures forall k :: k in old(geese) ==> geese[k] == old(geese)[k]
      ensures forall k :: k in geese && k !in old(geese) ==> fresh(geese[k])
      ensures forall k :: k in old(geese) && old(geese[k].inPen) ==> geese[k].inPen
      ensures forall k :: k in geese && DueIn(children, k, geese[k].role, launchRunning) ==>
        geese[k].inPen
      ensures forall k :: k in geese ==>
        Some(geese[k].status) ==
          StatusAfter(children, k, if k in old(geese) then Some(old(geese[k].status)) else None,
                      launchRunning)
      ensures recent == old(recent) && seenKeys == old(seenKeys) && drawn == old(drawn)
      ensures launchRunning == old(launchRunning)
    {
      ghost var penned := set k | k in geese && geese[k].inPen;
      ghost var st0 := map k | k in geese :: geese[k].status;
      var i := 0;
      while i < |children|
        invariant 0 <= i <= |children|
        invariant TreeSoFar(old(geese), penned, st0, children[..i])
        invariant forall k :: k in geese && k !in old(geese) ==> fresh(geese[k])
        invariant recent == old(recent) && seenKeys == old(seenKeys) && drawn == old(drawn)
        invariant launchRunning == old(launchRunning)
      {
        TreeTurn(children, i, ring, draw(i), dist(i), old(geese), penned, st0);
        assert TreeSoFar(old(geese), penned, st0, children[..i + 1]);
        i := i + 1;
      }
      assert children[..|children|] == children;
    }

    /** `OnChild` seen from the tree loop: the keys grow by the child's
        key, geese stay the same objects, one goose per key, and every
        goose's status moves as `StatusMoved` says. */
    method ChildTurn(c: Child, idx: nat, total: nat, ring: (nat, nat) -> Point, d: Draws, dist: real)
      requires ValidDraws(d) && idx == |geese| && Unaliased()
      modifies this, geese.Values
      ensures var k := ChildKey(c);
        geese.Keys == old(geese).Keys + (if k != "" then {k} else {})
      ensures forall k :: k in old(geese) ==> geese[k] == old(geese)[k]
      ensures forall k :: k in geese && k !in old(geese) ==> fresh(geese[k])
      ensures forall k :: k in old(geese) && old(geese[k].inPen) ==> geese[k].inPen
      ensures var k := ChildKey(c);
        k != "" && PenDue(c, geese[k].role, launchRunning) ==> geese[k].inPen
      ensures Unaliased()
      ensures forall k :: k in geese ==>
        StatusMoved(c, k, if k in old(geese) then Some(old(geese[k].status)) else None,
                    geese[k].status, launchRunning)
      ensures recent == old(recent) && seenKeys == old(seenKeys) && drawn == old(drawn)
      ensures launchRunning == old(launchRunning)
    {
      ghost var before := geese;
      label pre:
      OnChild(c, idx, total, ring, d, dist);
      var key := ChildKey(c);
      forall k | k in geese
        ensures StatusMoved(c, k, if k in before then Some(old@pre(geese[k].status)) else None,
                            geese[k].status, launchRunning)
      {
        if k != key || key == "" {
          assert k in before && geese[k] == before[k];
          assert key == "" || key !in before || before[k] != before[key];
        }
      }
      if key != "" && key !in before {
        GrownDistinct(before, key, geese[key]);
      }
    }

    /** One turn of `OnTree`'s loop: `OnChild` for the `i`-th child, which
        keeps every penned goose penned, pens the geese due there, and
        gives every goose its status after the children so far. */
    method TreeChildStep(children: seq<Child>, i: nat, ring: (nat, nat) -> Point, d: Draws, dist: real,
                         ghost penned: set<string>)
      requires i < |children| && ValidDraws(d)
      requires TreeKeys(children[..i]) <= geese.Keys
      requires forall k :: k in penned ==> k in geese && geese[k].inPen
      requires forall k :: k in geese && DueIn(children[..i], k, geese[k].role, launchRunning) ==>
        geese[k].inPen
      requires Unaliased()
      modifies this, geese.Values
      ensures var k := ChildKey(children[i]);
        geese.Keys == old(geese).Keys + (if k != "" then {k} else {})
      ensures forall k :: k in old(geese) ==> geese[k] == old(geese)[k]
      ensures forall k :: k in geese && k !in old(geese) ==> fresh(geese[k])
      ensures forall k :: k in penned ==> k in geese && geese[k].inPen
      ensures forall k :: k in geese && DueIn(children[..i + 1], k, geese[k].role, launchRunning) ==>
        geese[k].inPen
      ensures Unaliased()
      ensures forall k :: k in geese ==>
        StatusMoved(children[i], k, if k in old(geese) then Some(old(geese[k].status)) else None,
                    geese[k].status, launchRunning)
      ensures recent == old(recent) && seenKeys == old(seenKeys) && drawn == old(drawn)
      ensures launchRunning == old(launchRunning)
    {
      ghost var before := geese;
      label pre:
      ChildTurn(children[i], |geese|, |children|, ring, d, dist);
      assert children[..i + 1][..i] == children[..i];
      assert children[..i + 1][i] == children[i];
      forall k | k in geese && DueIn(children[..i + 1], k, geese[k].role, launchRunning)
        ensures geese[k].inPen
      {
        if k in before && DueIn(children[..i], k, geese[k].role, launchRunning) {
          assert geese[k] == before[k];
          assert old@pre(geese[k].inPen);
        } else {
          if DueIn(children[..i], k, geese[k].role, launchRunning) {
            DueInKeyed(children[..i], k, geese[k].role, launchRunning);
          }
        }
      }
      forall k | k in penned
        ensures geese[k].inPen
      {
        assert old@pre(geese[k].inPen);
      }
    }

    /** What `OnTree`'s loop keeps after the children `cs`: the geese
        `g0` it started from grown by the keys of `cs`, the geese penned
        at the start (`penned`) and those due in `cs` penned, one goose
        object per key, and every goose with the status `StatusAfter`
        gives from the statuses `st0` at the start. */
    ghost predicate TreeSoFar(g0: map<string, Goose>, penned: set<string>, st0: map<string, string>,
                              cs: seq<Child>)
      reads this, geese.Values
    {
      st0.Keys <= g0.Keys && Grown(g0, geese, TreeKeys(cs)) &&
      (forall k :: k in penned ==> k in geese && geese[k].inPen) &&
      (forall k :: k in geese && DueIn(cs, k, geese[k].role, launchRunning) ==> geese[k].inPen) &&
      Unaliased() && StatusesAfter(st0, cs)
    }

    /** One turn of `OnTree`'s loop, `TreeChildStep` for the `i`-th child,
        moves `TreeSoFar` one child further. */
    method TreeTurn(children: seq<Child>, i: nat, ring: (nat, nat) -> Point, d: Draws, dist: real,
                    ghost g0: map<string, Goose>, ghost penned: set<string>,
                    ghost st0: map<string, string>)
      requires i < |children| && ValidDraws(d)
      requires TreeSoFar(g0, penned, st0, children[..i])
      modifies this, geese.Values
      ensures TreeSoFar(g0, penned, st0, children[..i + 1])
      ensures forall k :: k in old(geese) ==> k in geese && geese[k] == old(geese)[k]
      ensures forall k :: k in geese && k !in old(geese) ==> fresh(geese[k])
      ensures recent == old(recent) && seenKeys == old(seenKeys) && drawn == old(drawn)
      ensures launchRunning == old(launchRunning)
    {
      ghost var before := geese;
      label pre:
      TreeChildStep(children, i, ring, d, dist, penned);
      var key := ChildKey(children[i]);
      TreeKeysStep(children, i);
      GrownStep(g0, before, geese, TreeKeys(children[..i]), if key != "" then {key} else {});
      forall k | k in geese
        ensures Some(geese[k].status) == StatusAfter(children[..i + 1], k, Lookup(st0, k), launchRunning)
      {
        StatusStep(children, i, k, st0, launchRunning,
                   if k in before then Some(old@pre(geese[k].status)) else None, geese[k].status);
      }
    }

    /** `onWall`: the board takes the message first. A message from the
        human while an orchestrator goose is penned reaches a call to a
        method geese do not have, which throws, so the rest is skipped;
        otherwise the sender's goose, if any, walks to the board to post. */
    method OnWall(m: BoardMsg, d: Draws, dist: real) returns (threw: bool)
      requires Valid()
      modifies this, if m.senderId in geese then {geese[m.senderId]} else {}
      ensures Valid()
      ensures WallMsgKey(m) in old(seenKeys) ==>
        recent == old(recent) && seenKeys == old(seenKeys) && drawn == old(drawn)
      ensures WallMsgKey(m) !in old(seenKeys) ==>
        seenKeys == old(seenKeys) + {WallMsgKey(m)} &&
        recent == Window(old(recent) + [m]) && drawn == Layout(recent, measure)
      ensures geese == old(geese) && launchRunning == old(launchRunning)
      ensures threw <==> (m.senderId == "human" &&
        exists k :: k in geese && geese[k].role == "orchestrator" && old(geese[k].inPen))
      ensures m.senderId in geese ==>
        geese[m.senderId].Snapshot() ==
          if threw then old(geese[m.senderId].Snapshot())
          else GoneToBoard(old(geese[m.senderId].Snapshot()), geese[m.senderId].board,
                           Post, false, d, dist)
    {
      UpdateBoardTexture(m);
      threw := false;
      if m.senderId == "human" {
        threw := exists k | k in geese :: geese[k].role == "orchestrator" && geese[k].inPen;
        if threw {
          return;
        }
      }
      if m.senderId in geese {
        geese[m.senderId].GoToBoard(Post, false, d, dist);
      }
    }

    /** The launch status poll: a launch runs exactly while the status
        reads `running`; nothing else in the scene changes. */
    method SetLaunchStatus(status: string)
      modifies this
      ensures launchRunning <==> status == "running"
      ensures recent == old(recent) && seenKeys == old(seenKeys) && drawn == old(drawn)
      ensures geese == old(geese)
    {
      launchRunning := status == "running";
    }

    /** `onWallRead`: the reader's goose, if any, walks to the board to
        read. */
    method OnWallRead(readerId: string, d: Draws, dist: real)
      modifies if readerId in geese then {geese[readerId]} else {}
      ensures readerId in geese ==>
        geese[readerId].Snapshot() ==
          GoneToBoard(old(geese[readerId].Snapshot()), geese[readerId].board, Read, false, d, dist)
    {
      if readerId in geese {
        geese[readerId].GoToBoard(Read, false, d, dist);
      }
    }
  }

  /** Distinct keys map to distinct geese. */
  ghost predicate Distinct(m: map<string, Goose>) {
    forall k1, k2 :: k1 in m && k2 in m && k1 != k2 ==> m[k1] != m[k2]
  }

  /** A goose not yet in the map keeps it distinct under a new key. */
  lemma GrownDistinct(m: map<string, Goose>, key: string, g: Goose)
    requires Distinct(m) && key !in m && g !in m.Values
    ensures Distinct(m[key := g])
  {
  }

  /** A complete child is due in the pen unless its goose is the
      orchestrator of a running launch. */
  predicate PenDue(c: Child, role: string, launchRunning: bool) {
    c.data.status == "complete" && !(role == "orchestrator" && launchRunning)
  }

  /** The role of a first-seen child's goose. */
  function SpawnRole(c: Child): string {
    if c.role != "" then c.role else "generic"
  }

  /** Where `onTree` puts a new goose: the centre for the orchestrator,
      otherwise ring point `idx` (the number of geese so far) out of
      `max(n - 1, 1)`, for a tree of `n` children. */
  function HomeFor(c: Child, idx: nat, n: nat, ring: (nat, nat) -> Point): Point {
    if c.role == "orchestrator" then Center else ring(idx, if n > 2 then n - 1 else 1)
  }

  /** The state of a goose first seen in a tree with the home `home`. A
      child due in the pen puts it at once, standing, at its pen home
      with the tree's status; any other stays as it was built. */
  function Spawned(c: Child, home: Point, launchRunning: bool, d: Draws): Snap {
    var s := Snap(false, Idle, "idle", false, None, home, home, 0.0, d.c * 10.0, 0.0, None, false);
    if PenDue(c, SpawnRole(c), launchRunning)
    then SentToPen(s.(status := c.data.status), PenBounds, d, 0.0)
    else s
  }

  /** A new goose is `idle` unless it goes straight into the pen, with
      the child's status. */
  lemma SpawnedStatus(c: Child, home: Point, launchRunning: bool, d: Draws)
    ensures Spawned(c, home, launchRunning, d).status == SpawnStatus(c, launchRunning)
  {
  }

  /** The status of a new goose. */
  function SpawnStatus(c: Child, launchRunning: bool): string {
    if PenDue(c, SpawnRole(c), launchRunning) then c.data.status else "idle"
  }

  /** The counters of a goose first seen in a tree: copied from the child
      only when it goes straight into the pen. */
  function SpawnTally(c: Child, launchRunning: bool): Tally {
    var t := Tally(ChildKey(c), 0, 0, None);
    if PenDue(c, SpawnRole(c), launchRunning) then Tallied(t, c.data) else t
  }

  /** A new goose stands still with nothing pending and a wander timer
      under 10 s. One due in the pen is in it, complete, half a unit
      inside the fences, with the child's counters. Any other is idle at
      its home, out of the pen, with zero counters. Both carry the
      child's key as their wall id. */
  lemma SpawnedRules(c: Child, home: Point, launchRunning: bool, d: Draws)
    requires ValidDraws(d)
    ensures var r := Spawned(c, home, launchRunning, d);
      var t := SpawnTally(c, launchRunning);
      r.remaining == 0.0 && r.target == r.home && r.pending.None? && !r.loaded &&
      0.0 <= r.wanderTimer < 10.0 && t.gtwallId == ChildKey(c) &&
      (PenDue(c, SpawnRole(c), launchRunning) ==>
        r.inPen && r.status == "complete" &&
        PenBounds.xMin + 0.5 <= r.home.x <= PenBounds.xMax - 0.5 &&
        PenBounds.zMin + 0.5 <= r.home.z <= PenBounds.zMax - 0.5 &&
        t == Tally(ChildKey(c), c.data.tokens.GetOr(0), c.data.messageCount.GetOr(0), Some(c.data.id))) &&
      (!PenDue(c, SpawnRole(c), launchRunning) ==>
        !r.inPen && r.status == "idle" && r.state == Idle && r.home == home &&
        t == Tally(ChildKey(c), 0, 0, None))
  {
    var s := Snap(false, Idle, "idle", false, None, home, home, 0.0, d.c * 10.0, 0.0, None, false);
    SentToPenRules(s.(status := c.data.status), PenBounds, d, 0.0);
  }

  /** The status of the goose with key `k` after the children `cs`,
      starting from `before` (`None` while the key has no goose): a child
      with the key sets the tree's status, except that the child creating
      the goose leaves it `idle` unless it is due in the pen. */
  function StatusAfter(cs: seq<Child>, k: string, before: Option<string>, launchRunning: bool): Option<string> {
    if |cs| == 0 then before
    else
      var prev := StatusAfter(cs[..|cs| - 1], k, before, launchRunning);
      var c := cs[|cs| - 1];
      if k == "" || ChildKey(c) != k then prev
      else if prev.Some? then Some(c.data.status)
      else Some(SpawnStatus(c, launchRunning))
  }

  function Lookup(st: map<string, string>, k: string): Option<string> {
    if k in st then Some(st[k]) else None
  }

  /** What child `c` does to the status of the goose with key `k`, from
      `was` (`None` when there was no goose) to `now`: a goose it does not
      name keeps its status, the goose it names takes the child's status,
      or its first status when the child brings it in. */
  ghost predicate StatusMoved(c: Child, k: string, was: Option<string>, now: string, launchRunning: bool) {
    if k != ChildKey(c) || k == "" then was == Some(now)
    else now == if was.Some? then c.data.status else SpawnStatus(c, launchRunning)
  }

  /** One child further: the status a goose has after the `i`-th child
      is the one `StatusAfter` gives for the children up to and including
      it, when `was` is its status before that child (`None` for a key new
      there) and `now` is the one that child leaves it with. */
  lemma StatusStep(cs: seq<Child>, i: nat, k: string, st0: map<string, string>, launchRunning: bool,
                   was: Option<string>, now: string)
    requires i < |cs|
    requires was.Some? ==> was == StatusAfter(cs[..i], k, Lookup(st0, k), launchRunning)
    requires was.None? ==> k !in TreeKeys(cs[..i]) && k !in st0
    requires StatusMoved(cs[i], k, was, now, launchRunning)
    ensures Some(now) == StatusAfter(cs[..i + 1], k, Lookup(st0, k), launchRunning)
  {
    assert cs[..i + 1][..i] == cs[..i];
    assert cs[..i + 1][i] == cs[i];
    if was.None? {
      StatusAfterUnnamed(cs[..i], k, None, launchRunning);
    }
  }

  /** A key no child names keeps its status. */
  lemma {:induction false} StatusAfterUnnamed(cs: seq<Child>, k: string, before: Option<string>,
                                              launchRunning: bool)
    requires k !in TreeKeys(cs)
    ensures StatusAfter(cs, k, before, launchRunning) == before
  {
    if |cs| > 0 {
      TreeKeysStep(cs, |cs| - 1);
      assert cs[..|cs|] == cs;
      StatusAfterUnnamed(cs[..|cs| - 1], k, before, launchRunning);
    }
  }

  /** A goose that has a status keeps having one. */
  lemma {:induction false} StatusAfterSome(cs: seq<Child>, k: string, before: Option<string>,
                                           launchRunning: bool)
    requires before.Some?
    ensures StatusAfter(cs, k, before, launchRunning).Some?
  {
    if |cs| > 0 {
      StatusAfterSome(cs[..|cs| - 1], k, before, launchRunning);
    }
  }

  /** A key some child names has a status after the children. */
  lemma {:induction false} StatusAfterNamed(cs: seq<Child>, k: string, before: Option<string>,
                                            launchRunning: bool, i: nat)
    requires i < |cs| && k != "" && ChildKey(cs[i]) == k
    ensures StatusAfter(cs, k, before, launchRunning).Some?
  {
    if i < |cs| - 1 {
      StatusAfterNamed(cs[..|cs| - 1], k, before, launchRunning, i);
    }
  }

  /** A goose that had a status before child `j`, the last child carrying
      its key, ends with that child's status: it existed before the tree,
      or an earlier child carried its key too. */
  lemma {:induction false} StatusAfterLast(cs: seq<Child>, k: string, before: Option<string>,
                                           launchRunning: bool, j: nat)
    requires j < |cs| && k != "" && ChildKey(cs[j]) == k
    requires before.Some? || exists i :: 0 <= i < j && ChildKey(cs[i]) == k
    requires forall i :: j < i < |cs| ==> ChildKey(cs[i]) != k
    ensures StatusAfter(cs, k, before, launchRunning) == Some(cs[j].data.status)
  {
    if j == |cs| - 1 {
      if before.Some? {
        StatusAfterSome(cs[..|cs| - 1], k, before, launchRunning);
      } else {
        var i :| 0 <= i < j && ChildKey(cs[i]) == k;
        StatusAfterNamed(cs[..|cs| - 1], k, before, launchRunning, i);
      }
    } else {
      assert forall i :: 0 <= i < j ==> cs[..|cs| - 1][i] == cs[i];
      StatusAfterLast(cs[..|cs| - 1], k, before, launchRunning, j);
    }
  }

  /** A goose created by the only child carrying its key ends with the
      status that child gives a new goose. */
  lemma {:induction false} StatusAfterOnly(cs: seq<Child>, k: string, launchRunning: bool, j: nat)
    requires j < |cs| && k != "" && ChildKey(cs[j]) == k
    requires forall i :: 0 <= i < |cs| && i != j ==> ChildKey(cs[i]) != k
    ensures StatusAfter(cs, k, None, launchRunning) == Some(SpawnStatus(cs[j], launchRunning))
  {
    if j == |cs| - 1 {
      StatusAfterUnnamed(cs[..|cs| - 1], k, None, launchRunning);
    } else {
      StatusAfterOnly(cs[..|cs| - 1], k, launchRunning, j);
    }
  }

  /** A goose first seen in a tree: role `generic` when none is given,
      placed at `home`; updated and put straight into the pen only when it
      is already complete (and is not the orchestrator of a running
      launch), otherwise left with the status it was built with. */
  method SpawnGoose(c: Child, board: Point, home: Point, launchRunning: bool,
                    d: Draws, dist: real) returns (goose: Goose)
    requires ValidDraws(d)
    ensures fresh(goose)
    ensures goose.role == (if c.role != "" then c.role else "generic")
    ensures goose.id == c.data.id && goose.gtwallId == ChildKey(c) && goose.board == board
    ensures PenDue(c, goose.role, launchRunning) ==>
      goose.inPen && goose.home == goose.target && goose.remaining == 0.0 &&
      goose.status == c.data.status
    ensures !PenDue(c, goose.role, launchRunning) ==>
      !goose.inPen && goose.status == "idle" && goose.home == home && goose.target == home
    ensures goose.Snapshot() == Spawned(c, home, launchRunning, d)
    ensures goose.Counters() == SpawnTally(c, launchRunning)
  {
    var role := if c.role != "" then c.role else "generic";
    goose := new Goose(c.data.id, role, ChildKey(c), board, d.c);
    goose.SetHome(home);
    var skipPen := c.role == "orchestrator" && launchRunning;
    if c.data.status == "complete" && !skipPen {
      goose.UpdateFromTree(c.data);
      goose.SendToPen(PenBounds, d, dist);
      goose.PlaceAtHome();
    }
  }

  /** A goose seen again: its status becomes the tree's, and it is sent
      to the pen when it is complete, not penned yet, and not the
      orchestrator of a running launch. */
  function Refreshed(s: Snap, role: string, data: TreeData, launchRunning: bool,
                     d: Draws, dist: real): Snap {
    var u := s.(status := data.status);
    if u.status == "complete" && !u.inPen && !(role == "orchestrator" && launchRunning)
    then SentToPen(u, PenBounds, d, dist)
    else u
  }

  /** A refreshed goose never leaves the pen, is in it when it is due
      there, and only a goose that was out of the pen gets a new home. */
  lemma RefreshedRules(s: Snap, role: string, data: TreeData, launchRunning: bool,
                       d: Draws, dist: real)
    ensures var r := Refreshed(s, role, data, launchRunning, d, dist);
      r.status == data.status &&
      (s.inPen ==> r == s.(status := data.status)) &&
      (data.status == "complete" && !(role == "orchestrator" && launchRunning) ==> r.inPen) &&
      (data.status != "complete" ==> r == s.(status := data.status))
  {
  }

  /** `RefreshGoose` on the goose object. */
  method RefreshGoose(goose: Goose, data: TreeData, launchRunning: bool, d: Draws, dist: real)
    modifies goose
    ensures goose.Snapshot() == Refreshed(old(goose.Snapshot()), goose.role, data, launchRunning, d, dist)
    ensures goose.Counters() == Tallied(old(goose.Counters()), data)
    ensures goose.tokens == data.tokens.GetOr(0) && goose.messageCount == data.messageCount.GetOr(0)
    ensures goose.sessionId == Some(data.id)
    ensures goose.gtwallId == if data.gtwallId != "" then data.gtwallId else old(goose.gtwallId)
    ensures goose.status == data.status
    ensures old(goose.inPen) ==> goose.inPen
    ensures data.status == "complete" && !(goose.role == "orchestrator" && launchRunning) ==>
      goose.inPen
    ensures !old(goose.inPen) && goose.inPen ==>
      goose.home == PenHome(PenBounds, d) && goose.state == Walking
  {
    goose.UpdateFromTree(data);
    var skipPen := goose.role == "orchestrator" && launchRunning;
    if goose.status == "complete" && !goose.inPen && !skipPen {
      goose.SendToPen(PenBounds, d, dist);
    }
  }

  /** Some child of `cs` with the non-empty key `k` is due in the pen, for a goose of role `role`. */
  predicate DueIn(cs: seq<Child>, k: string, role: string, launchRunning: bool) {
    |cs| > 0 &&
    (DueIn(cs[..|cs| - 1], k, role, launchRunning) ||
     (k != "" && ChildKey(cs[|cs| - 1]) == k && PenDue(cs[|cs| - 1], role, launchRunning)))
  }

  /** A key due in the pen is a key of the tree. */
  lemma {:induction false} DueInKeyed(cs: seq<Child>, k: string, role: string, launchRunning: bool)
    requires DueIn(cs, k, role, launchRunning)
    ensures k in TreeKeys(cs)
  {
    var init := cs[..|cs| - 1];
    TreeKeysStep(cs, |cs| - 1);
    assert cs[..|cs|] == cs;
    if DueIn(init, k, role, launchRunning) {
      DueInKeyed(init, k, role, launchRunning);
    }
  }

  /** `DueIn` holds exactly when some child with key `k` is complete and
      is not the orchestrator of a running launch. */
  lemma {:induction false} DueInExactly(cs: seq<Child>, k: string, role: string, launchRunning: bool)
    ensures DueIn(cs, k, role, launchRunning) <==>
      k != "" && exists j :: 0 <= j < |cs| && ChildKey(cs[j]) == k && PenDue(cs[j], role, launchRunning)
  {
    if |cs| > 0 {
      var init := cs[..|cs| - 1];
      DueInExactly(init, k, role, launchRunning);
      if DueIn(init, k, role, launchRunning) {
        var j :| 0 <= j < |init| && ChildKey(init[j]) == k && PenDue(init[j], role, launchRunning);
        assert cs[j] == init[j];
      }
      if exists j :: 0 <= j < |cs| && ChildKey(cs[j]) == k && PenDue(cs[j], role, launchRunning) {
        var j :| 0 <= j < |cs| && ChildKey(cs[j]) == k && PenDue(cs[j], role, launchRunning);
        if j < |cs| - 1 {
          assert init[j] == cs[j];
        }
      }
    }
  }

  /** `g` is `g0` with the keys `keys` added and every old entry kept. */
  ghost predicate Grown(g0: map<string, Goose>, g: map<string, Goose>, keys: set<string>) {
    g.Keys == g0.Keys + keys && forall k :: k in g0 ==> g[k] == g0[k]
  }

  /** Growing a grown map by new keys, keeping its entries, grows it by both. */
  lemma GrownStep(g0: map<string, Goose>, g1: map<string, Goose>, g2: map<string, Goose>,
                  keys: set<string>, more: set<string>)
    requires Grown(g0, g1, keys)
    requires g2.Keys == g1.Keys + more && forall k :: k in g1 ==> g2[k] == g1[k]
    ensures Grown(g0, g2, keys + more)
  {
  }

  lemma TreeKeysStep(children: seq<Child>, i: nat)
    requires i < |children|
    ensures TreeKeys(children[..i + 1]) ==
      TreeKeys(children[..i]) + (if ChildKey(children[i]) != "" then {ChildKey(children[i])} else {})
  {
    var a := children[..i + 1];
    var b := children[..i];
    forall k | k in TreeKeys(a)
      ensures k in TreeKeys(b) + (if ChildKey(children[i]) != "" then {ChildKey(children[i])} else {})
    {
      var j :| 0 <= j < |a| && ChildKey(a[j]) != "" && ChildKey(a[j]) == k;
      if j < i {
        assert a[j] == b[j];
      }
    }
    forall k | k in TreeKeys(b) ensures k in TreeKeys(a) {
      var j :| 0 <= j < |b| && ChildKey(b[j]) != "" && ChildKey(b[j]) == k;
      assert a[j] == b[j];
    }
    if ChildKey(children[i]) != "" {
      assert a[i] == children[i];
    }
  }
}
