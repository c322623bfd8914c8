/**
 TiXmlParsingData: the row and column of a position, kept up to date by stamping ever later positions.
 */
module XmlCursor {
  import opened Octets
  import opened XmlBytes
  import XmlNewlines
  import XmlUtf8

  datatype Cursor = Cursor(stamp: nat, row: int, col: nat)

  /**
   How a stamp ends: the cursor is stored; or the terminator is met first, and nothing is stored; or the loop
   does not get past a byte; or the position has left the buffer.
   */
  datatype Outcome = Stored(cursor: Cursor) | Abandoned | Hangs | Strays

  const LEAD_0: byte := 0xEF

  /** A three-byte sequence is cut by the terminator: the loop makes no step here. */
  predicate Stuck(s: bytes, p: nat, utf8: bool)
    requires p < |s|
  {
    utf8 && s[p] == LEAD_0 && !(Peek(s, p + 1) != 0 && p + 1 < |s| && Peek(s, p + 2) != 0)
  }

  predicate ZeroWidth(b: byte, c: byte) {
    (b == 0xBB && c == 0xBF) || (b == 0xBF && c == 0xBE) || (b == 0xBF && c == 0xBF)
  }

  /** One turn of the loop. */
  function Turn(s: bytes, tabsize: nat, utf8: bool, c: Cursor): (r: Cursor)
    requires c.stamp < |s| && tabsize >= 1 && !Stuck(s, c.stamp, utf8)
    ensures r.stamp > c.stamp
  {
    var p := c.stamp;
    if s[p] == CR then Cursor(if Peek(s, p + 1) == LF then p + 2 else p + 1, c.row + 1, 0)
    else if s[p] == LF then Cursor(if Peek(s, p + 1) == CR then p + 2 else p + 1, c.row + 1, 0)
    else if s[p] == TAB then Cursor(p + 1, c.row, (c.col / tabsize + 1) * tabsize)
    else if !utf8 then Cursor(p + 1, c.row, c.col + 1)
    else if s[p] == LEAD_0
    then Cursor(p + 3, c.row, if ZeroWidth(s[p + 1], s[p + 2]) then c.col else c.col + 1)
    else Cursor(p + XmlUtf8.ByteTable(s[p]), c.row, c.col + 1)
  }

  function Advance(s: bytes, tabsize: nat, utf8: bool, c: Cursor, now: nat): (r: Outcome)
    requires tabsize >= 1
    ensures r.Stored? ==> r.cursor.stamp >= now && r.cursor.stamp >= c.stamp
    decreases now - c.stamp
  {
    if c.stamp >= now then Stored(c)
    else if c.stamp > |s| then Strays
    else if c.stamp == |s| || s[c.stamp] == 0 then Abandoned
    else if Stuck(s, c.stamp, utf8) then Hangs
    else Advance(s, tabsize, utf8, Turn(s, tabsize, utf8, c), now)
  }

  lemma AdvanceOnce(s: bytes, tabsize: nat, utf8: bool, c: Cursor, now: nat)
    requires tabsize >= 1
    ensures Advance(s, tabsize, utf8, c, now) ==
            if c.stamp >= now then Stored(c)
            else if c.stamp > |s| then Strays
            else if c.stamp == |s| || s[c.stamp] == 0 then Abandoned
            else if Stuck(s, c.stamp, utf8) then Hangs
            else Advance(s, tabsize, utf8, Turn(s, tabsize, utf8, c), now)
  {}

  /** The cursor after a stamp; a tab size below 1 switches stamping off. */
  function Stamped(s: bytes, tabsize: int, utf8: bool, c: Cursor, now: nat): Cursor {
    if tabsize < 1 then c
    else
      var r := Advance(s, tabsize, utf8, c, now);
      if r.Stored? then r.cursor else c
  }

  class ParsingData {
    var row: int
    var col: nat
    var stamp: nat
    const tabsize: int

    constructor (tabsize: int, row: int, col: nat)
      ensures Position() == Cursor(0, row, col) && this.tabsize == tabsize
    {
      this.tabsize, this.row, this.col, stamp := tabsize, row, col, 0;
    }

    function Position(): Cursor
      reads this
    {
      Cursor(stamp, row, col)
    }

    /**
     Stamp; the outcome is not part of the source. A turn without a step would be taken for ever, and a position beyond
     the terminator would be read there: both are reported and nothing is stored.
     */
    method Stamp(s: bytes, now: nat, utf8: bool) returns (outcome: Outcome)
      modifies this
      ensures Position() == Stamped(s, tabsize, utf8, old(Position()), now)
      ensures outcome == if tabsize < 1 then Stored(old(Position())) else Advance(s, tabsize, utf8, old(Position()), now)
    {
      if tabsize < 1 {
        return Stored(Position());
      }
      hide Advance;
      ghost var start := Position();
      var r: int, c: nat, p: nat := row, col, stamp;
      while p < now
        invariant Position() == start && start == old(Position())
        invariant Advance(s, tabsize, utf8, Cursor(p, r, c), now) == Advance(s, tabsize, utf8, start, now)
        decreases now - p
      {
        AdvanceOnce(s, tabsize, utf8, Cursor(p, r, c), now);
        if p > |s| {
          return Strays;
        }
        if Peek(s, p) == 0 {
          return Abandoned;
        }
        var before := p;
        ghost var was := Cursor(p, r, c);
        if s[p] == CR {
          r := r + 1;
          c := 0;
          p := p + 1;
          if Peek(s, p) == LF {
            p := p + 1;
          }
        } else if s[p] == LF {
          r := r + 1;
          c := 0;
          p := p + 1;
          if Peek(s, p) == CR {
            p := p + 1;
          }
        } else if s[p] == TAB {
          p := p + 1;
          c := (c / tabsize + 1) * tabsize;
        } else if s[p] == LEAD_0 && utf8 {
          if Peek(s, p + 1) != 0 && Peek(s, p + 2) != 0 {
            if s[p + 1] == 0xBB && s[p + 2] == 0xBF {
              p := p + 3;
            } else if s[p + 1] == 0xBF && s[p + 2] == 0xBE {
              p := p + 3;
            } else if s[p + 1] == 0xBF && s[p + 2] == 0xBF {
              p := p + 3;
            } else {
              p := p + 3;
              c := c + 1;
            }
          }
        } else if utf8 {
          p := p + XmlUtf8.ByteTable(s[p]);
          c := c + 1;
        } else {
          p := p + 1;
          c := c + 1;
        }
        if p == before {
          return Hangs;
        }
        assert Cursor(p, r, c) == Turn(s, tabsize, utf8, was);
      }
      AdvanceOnce(s, tabsize, utf8, Cursor(p, r, c), now);
      row := r;
      col := c;
      stamp := p;
      return Stored(Position());
    }
  }

  // ------------------------------------------------------------------ how stamping ends

  /** Where the loop goes from p, whatever it counts on the way. */
  function NextStart(s: bytes, utf8: bool, p: nat): (q: nat)
    requires p < |s|
    ensures q > p
  {
    if s[p] == CR then if Peek(s, p + 1) == LF then p + 2 else p + 1
    else if s[p] == LF then if Peek(s, p + 1) == CR then p + 2 else p + 1
    else if utf8 then p + XmlUtf8.ByteTable(s[p])
    else p + 1
  }

  /** The loop comes from p to q. */
  predicate Starts(s: bytes, utf8: bool, p: nat, q: nat)
    decreases q - p
  {
    p == q || (p < q && p < |s| && Starts(s, utf8, NextStart(s, utf8, p), q))
  }

  /** Where the loop leaves the text: at its terminator, or beyond it when the last sequence is cut. */
  function Exit(s: bytes, utf8: bool, p: nat): (q: nat)
    ensures q >= |s| && q >= p
    decreases |s| - p
  {
    if p >= |s| then p else Exit(s, utf8, NextStart(s, utf8, p))
  }

  /** A lead byte of the kind that the loop looks behind, in one of the last two places. */
  predicate CutAt(s: bytes, q: nat) {
    q < |s| <= q + 2 && s[q] == LEAD_0
  }

  /** On its way from p to the position the loop comes to such a byte. */
  predicate MeetsCut(s: bytes, p: nat, now: nat) {
    exists q :: p <= q < now && CutAt(s, q) && Starts(s, true, p, q)
  }

  /** The position is not beyond where the loop leaves the text, and nothing on the way holds it up. */
  predicate Reached(s: bytes, utf8: bool, p: nat, now: nat) {
    now <= Exit(s, utf8, p) && !(utf8 && MeetsCut(s, p, now))
  }

  lemma StuckIsCut(s: bytes, p: nat)
    requires p < |s| && 0 !in s
    ensures Stuck(s, p, true) <==> CutAt(s, p)
  {
    assert p + 1 < |s| ==> s[p + 1] in s;
    assert p + 2 < |s| ==> s[p + 2] in s;
  }

  /** For every text: a stamp never ends, is stored, leaves the buffer or is given up exactly in these cases. */
  lemma {:induction false} StampEnds(s: bytes, tabsize: nat, utf8: bool, c: Cursor, now: nat)
    requires tabsize >= 1 && 0 !in s
    ensures var r, out := Advance(s, tabsize, utf8, c, now), Exit(s, utf8, c.stamp);
            && (r.Hangs? <==> utf8 && MeetsCut(s, c.stamp, now))
            && (r.Stored? <==> Reached(s, utf8, c.stamp, now))
            && (r.Strays? ==> |s| < out < now)
            && (r.Abandoned? ==> |s| == out < now)
            && (r.Stored? ==> Starts(s, utf8, c.stamp, r.cursor.stamp))
    decreases now - c.stamp
  {
    hide MeetsCut, Turn, Stuck;
    var p := c.stamp;
    if p >= now || p >= |s| {
      NoCutHere(s, p, now);
    } else {
      assert s[p] in s;
      StuckIsCut(s, p);
      if utf8 && CutAt(s, p) {
        CutHere(s, p, now);
      } else {
        NotStuck(s, p, utf8);
        TurnGoes(s, tabsize, utf8, c);
        if utf8 {
          CutLater(s, p, now);
        }
        StampEnds(s, tabsize, utf8, Turn(s, tabsize, utf8, c), now);
      }
    }
  }

  lemma NotStuck(s: bytes, p: nat, utf8: bool)
    requires p < |s| && (utf8 ==> !Stuck(s, p, true))
    ensures !Stuck(s, p, utf8)
  {}

  lemma TurnGoes(s: bytes, tabsize: nat, utf8: bool, c: Cursor)
    requires tabsize >= 1 && c.stamp < |s| && !Stuck(s, c.stamp, utf8)
    ensures Turn(s, tabsize, utf8, c).stamp == NextStart(s, utf8, c.stamp)
  {}

  lemma NoCutHere(s: bytes, p: nat, now: nat)
    requires p >= now || p >= |s|
    ensures !MeetsCut(s, p, now)
  {}

  lemma CutHere(s: bytes, p: nat, now: nat)
    requires p < now && CutAt(s, p)
    ensures MeetsCut(s, p, now)
  {
    assert Starts(s, true, p, p);
  }

  lemma CutLater(s: bytes, p: nat, now: nat)
    requires p < |s| && !CutAt(s, p)
    ensures MeetsCut(s, p, now) <==> MeetsCut(s, NextStart(s, true, p), now)
  {
    var n := NextStart(s, true, p);
    if MeetsCut(s, p, now) {
      var q :| p <= q < now && CutAt(s, q) && Starts(s, true, p, q);
      assert Starts(s, true, n, q);
    }
    if MeetsCut(s, n, now) {
      var q :| n <= q < now && CutAt(s, q) && Starts(s, true, n, q);
      assert Starts(s, true, p, q);
    }
  }

  /** A text that ends in neither of the last two places with such a byte is stamped up to its terminator. */
  lemma CleanIsStored(s: bytes, tabsize: nat, utf8: bool, c: Cursor, now: nat)
    requires tabsize >= 1 && 0 !in s && now <= |s|
    requires utf8 ==> forall i :: 0 <= i < |s| && i + 2 >= |s| ==> s[i] != LEAD_0
    ensures Advance(s, tabsize, utf8, c, now).Stored?
  {
    StampEnds(s, tabsize, utf8, c, now);
  }

  /** Such an input: the text ends where a three-byte sequence starts; one more byte before it makes it harmless. */
  lemma CutSequenceHangs(c: Cursor)
    requires c.stamp == 0
    ensures Advance(['a' as int, LEAD_0], 4, true, c, 2) == Hangs
    ensures Advance(['a' as int, LEAD_0], 4, false, c, 2) == Stored(Cursor(2, c.row, c.col + 2))
    ensures Advance([0xC3, LEAD_0], 4, true, c, 2) == Stored(Cursor(2, c.row, c.col + 1))
  {
    var s := ['a' as int, LEAD_0];
    assert Starts(s, true, 1, 1);
    assert CutAt(s, 1) && Starts(s, true, 0, 1);
    StampEnds(s, 4, true, c, 2);
    ColumnsCount(s, 4, c, 2);
  }

  // ------------------------------------------------------------------ stamping in steps

  lemma {:induction false} AdvanceInSteps(s: bytes, tabsize: nat, utf8: bool, c: Cursor, a: nat, b: nat)
    requires tabsize >= 1 && a <= b
    ensures var r := Advance(s, tabsize, utf8, c, a);
            Advance(s, tabsize, utf8, c, b) == if r.Stored? then Advance(s, tabsize, utf8, r.cursor, b) else r
    decreases a - c.stamp
  {
    hide Turn, Stuck;
    if c.stamp < a && c.stamp < |s| && s[c.stamp] != 0 && !Stuck(s, c.stamp, utf8) {
      AdvanceInSteps(s, tabsize, utf8, Turn(s, tabsize, utf8, c), a, b);
    }
  }

  function StampAll(s: bytes, tabsize: int, utf8: bool, c: Cursor, nows: seq<nat>): Cursor
    decreases |nows|
  {
    if nows == [] then c else StampAll(s, tabsize, utf8, Stamped(s, tabsize, utf8, c, nows[0]), nows[1..])
  }

  /** The stamp of this position leaves the cursor where it is. */
  predicate Idle(s: bytes, utf8: bool, p: nat, now: nat) {
    now <= p || !Reached(s, utf8, p, now)
  }

  lemma IdleIsNoStep(s: bytes, tabsize: nat, utf8: bool, c: Cursor, now: nat)
    requires tabsize >= 1 && 0 !in s
    ensures var d := Stamped(s, tabsize, utf8, c, now);
            && (Idle(s, utf8, c.stamp, now) ==> d == c)
            && (!Idle(s, utf8, c.stamp, now) ==> d.stamp > c.stamp && d.stamp >= now)
            && d.stamp >= c.stamp
  {
    StampEnds(s, tabsize, utf8, c, now);
  }

  /** Two stamps are one exactly when the later position is reached, or the earlier one moves nothing. */
  lemma TwoStampsAreOne(s: bytes, tabsize: nat, utf8: bool, c: Cursor, a: nat, b: nat)
    requires tabsize >= 1 && 0 !in s && a <= b
    ensures Stamped(s, tabsize, utf8, Stamped(s, tabsize, utf8, c, a), b) == Stamped(s, tabsize, utf8, c, b)
       <==> Reached(s, utf8, c.stamp, b) || Idle(s, utf8, c.stamp, a)
  {
    hide Advance, Reached;
    AdvanceInSteps(s, tabsize, utf8, c, a, b);
    StampEnds(s, tabsize, utf8, c, a);
    StampEnds(s, tabsize, utf8, c, b);
    IdleIsNoStep(s, tabsize, utf8, c, a);
    IdleIsNoStep(s, tabsize, utf8, Stamped(s, tabsize, utf8, c, a), b);
  }

  /**
   Stamping ever later positions gives what stamping the last of them gives, exactly when that is reached or none of
   them moves the cursor.
   */
  lemma {:induction false} StampsAreIncremental(s: bytes, tabsize: nat, utf8: bool, c: Cursor, nows: seq<nat>)
    requires tabsize >= 1 && 0 !in s
    requires nows != [] && forall i, j :: 0 <= i < j < |nows| ==> nows[i] <= nows[j]
    ensures StampAll(s, tabsize, utf8, c, nows) == Stamped(s, tabsize, utf8, c, nows[|nows| - 1])
       <==> Reached(s, utf8, c.stamp, nows[|nows| - 1])
            || forall i :: 0 <= i < |nows| ==> Idle(s, utf8, c.stamp, nows[i])
    decreases |nows|
  {
    hide Advance, Reached, Idle, Stamped;
    var first, rest, last := nows[0], nows[1..], nows[|nows| - 1];
    var d := Stamped(s, tabsize, utf8, c, first);
    IdleIsNoStep(s, tabsize, utf8, c, first);
    IdleIsNoStep(s, tabsize, utf8, c, last);
    IdleOf(s, utf8, c.stamp, last);
    if |nows| == 1 {
      assert rest == [] && first == last;
    } else {
      assert rest[|nows| - 2] == last;
      StampsAreIncremental(s, tabsize, utf8, d, rest);
      assert nows == [first] + rest;
      if Reached(s, utf8, c.stamp, last) {
        TwoStampsAreOne(s, tabsize, utf8, c, first, last);
        StillReached(s, tabsize, utf8, c, first, last);
      } else if Idle(s, utf8, c.stamp, first) {
        assert (forall i :: 0 <= i < |nows| ==> Idle(s, utf8, c.stamp, nows[i]))
          <==> (forall i :: 0 <= i < |rest| ==> Idle(s, utf8, c.stamp, rest[i])) by {
          assert forall i :: 0 <= i < |rest| ==> rest[i] == nows[i + 1];
          assert forall i :: 1 <= i < |nows| ==> nows[i] == rest[i - 1];
        }
      } else {
        StampsGoOn(s, tabsize, utf8, d, rest);
      }
    }
  }

  lemma IdleOf(s: bytes, utf8: bool, p: nat, now: nat)
    ensures !Reached(s, utf8, p, now) ==> Idle(s, utf8, p, now)
    ensures Idle(s, utf8, p, now) ==> now <= p || !Reached(s, utf8, p, now)
  {}

  lemma StillReached(s: bytes, tabsize: nat, utf8: bool, c: Cursor, a: nat, b: nat)
    requires tabsize >= 1 && 0 !in s && a <= b && Reached(s, utf8, c.stamp, b)
    ensures Reached(s, utf8, Stamped(s, tabsize, utf8, c, a).stamp, b)
  {
    hide Advance, Reached;
    AdvanceInSteps(s, tabsize, utf8, c, a, b);
    StampEnds(s, tabsize, utf8, c, b);
    StampEnds(s, tabsize, utf8, Stamped(s, tabsize, utf8, c, a), b);
  }

  lemma {:induction false} StampsGoOn(s: bytes, tabsize: nat, utf8: bool, c: Cursor, nows: seq<nat>)
    requires tabsize >= 1 && 0 !in s
    ensures StampAll(s, tabsize, utf8, c, nows).stamp >= c.stamp
    decreases |nows|
  {
    hide Stamped;
    if nows != [] {
      IdleIsNoStep(s, tabsize, utf8, c, nows[0]);
      StampsGoOn(s, tabsize, utf8, Stamped(s, tabsize, utf8, c, nows[0]), nows[1..]);
    }
  }

  // ------------------------------------------------------------------ rows

  function LineFeeds(s: bytes): nat {
    if s == [] then 0 else (if s[0] == LF then 1 else 0) + LineFeeds(s[1..])
  }

  /** On text without CR in a single-byte encoding, a stamp lands on its position, one row down for each LF. */
  lemma {:induction false} RowsAreLineFeeds(s: bytes, tabsize: nat, c: Cursor, now: nat)
    requires tabsize >= 1 && c.stamp <= now <= |s| && 0 !in s && CR !in s
    ensures var r := Advance(s, tabsize, false, c, now);
            r.Stored? && r.cursor.stamp == now && r.cursor.row == c.row + LineFeeds(s[c.stamp..now])
    decreases now - c.stamp
  {
    if c.stamp < now {
      var p := c.stamp;
      assert s[p] in s && (p + 1 < |s| ==> s[p + 1] in s);
      assert s[p..now][1..] == s[p + 1..now];
      RowsAreLineFeeds(s, tabsize, Turn(s, tabsize, false, c), now);
    }
  }

  predicate IsLineEnd(b: byte) {
    b == CR || b == LF
  }

  /** Where the run of alternating line feeds and carriage returns that starts at p ends. */
  function RunEnd(s: bytes, p: nat): (e: nat)
    requires p < |s|
    ensures p < e <= |s|
    decreases |s| - p
  {
    if p + 1 < |s| && IsLineEnd(s[p + 1]) && s[p + 1] != s[p] then RunEnd(s, p + 1) else p + 1
  }

  /** A run that starts with LF and ends with CR: the normaliser makes one line more of it than the cursor. */
  predicate LosesLine(s: bytes, p: nat, i: nat)
    requires p <= i < |s|
  {
    s[i] == LF && (i == p || s[i - 1] != CR) && (RunEnd(s, i) - i) % 2 == 0
  }

  predicate LosesLines(s: bytes, p: nat) {
    exists i :: p <= i < |s| && LosesLine(s, p, i)
  }

  function Lines(s: bytes, p: nat): nat
    requires p <= |s|
  {
    LineFeeds(XmlNewlines.Normalize(s[p..]))
  }

  /** The cursor after the whole text in a single-byte encoding. */
  function AtEnd(s: bytes, tabsize: nat, c: Cursor): Outcome
    requires tabsize >= 1
  {
    Advance(s, tabsize, false, c, |s|)
  }

  lemma LinesOnce(s: bytes, p: nat)
    requires p < |s|
    ensures Lines(s, p) == Lines(s, XmlNewlines.NextHead(s, p)) + if IsLineEnd(s[p]) then 1 else 0
  {
    XmlNewlines.NormalizeOnce(s, p);
    var x: byte := if s[p] == CR then LF else s[p];
    var tail := XmlNewlines.Normalize(s[XmlNewlines.NextHead(s, p)..]);
    assert ([x] + tail)[1..] == tail;
  }

  lemma RunOn(s: bytes, p: nat)
    requires p < |s|
    ensures RunEnd(s, p) > p + 1 ==> IsLineEnd(s[p + 1]) && s[p + 1] != s[p] && RunEnd(s, p) == RunEnd(s, p + 1)
    ensures RunEnd(s, p) == p + 1 && p + 1 < |s| && IsLineEnd(s[p + 1]) ==> s[p + 1] == s[p]
  {}

  /** In a run that starts with CR the normaliser makes a line of every two bytes; in one that starts with LF, of the first too. */
  lemma {:induction false} RunLines(s: bytes, p: nat)
    requires p < |s| && IsLineEnd(s[p])
    ensures var e := RunEnd(s, p);
            Lines(s, p) == Lines(s, e) + if s[p] == CR then (e - p + 1) / 2 else 1 + (e - p) / 2
    decreases |s| - p
  {
    hide Lines;
    LinesOnce(s, p);
    RunOn(s, p);
    var e := RunEnd(s, p);
    if e > p + 1 {
      RunOn(s, p + 1);
      if s[p] == LF {
        RunLines(s, p + 1);
      } else if e > p + 2 {
        RunLines(s, p + 2);
      }
    }
  }

  /** In any run the cursor makes a row of every two bytes. */
  lemma {:induction false} RunRows(s: bytes, tabsize: nat, c: Cursor)
    requires tabsize >= 1 && c.stamp < |s| && IsLineEnd(s[c.stamp])
    ensures var e := RunEnd(s, c.stamp);
            AtEnd(s, tabsize, c) == AtEnd(s, tabsize, Cursor(e, c.row + (e - c.stamp + 1) / 2, 0))
    decreases |s| - c.stamp
  {
    hide RunEnd, Advance;
    AdvanceOnce(s, tabsize, false, c, |s|);
    RunOn(s, c.stamp);
    if RunEnd(s, c.stamp) > c.stamp + 1 {
      RunOn(s, c.stamp + 1);
      if RunEnd(s, c.stamp) > c.stamp + 2 {
        RunRows(s, tabsize, Turn(s, tabsize, false, c));
      }
    }
  }

  /** Inside of a run no line is lost that is not lost by the whole of it. */
  lemma {:induction false} RunAlternates(s: bytes, p: nat, i: nat)
    requires p < i < |s| && i < RunEnd(s, p) && IsLineEnd(s[p])
    ensures IsLineEnd(s[i]) && s[i - 1] != s[i] && IsLineEnd(s[i - 1])
    decreases i - p
  {
    if i > p + 1 {
      RunAlternates(s, p + 1, i);
    }
  }

  lemma {:induction false} RunStops(s: bytes, p: nat)
    requires p < |s| && IsLineEnd(s[p])
    ensures var e := RunEnd(s, p); IsLineEnd(s[e - 1]) && (e < |s| && IsLineEnd(s[e]) ==> s[e] == s[e - 1])
    decreases |s| - p
  {
    if RunEnd(s, p) > p + 1 {
      RunStops(s, p + 1);
    }
  }

  lemma LosesAfterRun(s: bytes, p: nat)
    requires p < |s| && IsLineEnd(s[p])
    ensures var e := RunEnd(s, p);
            LosesLines(s, p) <==> (s[p] == LF && (e - p) % 2 == 0) || LosesLines(s, e)
  {
    hide RunEnd;
    var e := RunEnd(s, p);
    RunStops(s, p);
    if LosesLines(s, p) {
      var i :| p <= i < |s| && LosesLine(s, p, i);
      if p < i < e {
        RunAlternates(s, p, i);
      } else if i >= e {
        assert LosesLine(s, e, i);
      }
    }
    if LosesLines(s, e) {
      var i :| e <= i < |s| && LosesLine(s, e, i);
      assert LosesLine(s, p, i);
    }
    if s[p] == LF && (e - p) % 2 == 0 {
      assert LosesLine(s, p, p);
    }
  }

  lemma LosesAfterByte(s: bytes, p: nat)
    requires p < |s| && !IsLineEnd(s[p])
    ensures LosesLines(s, p) <==> LosesLines(s, p + 1)
  {
    hide RunEnd;
    if LosesLines(s, p) {
      var i :| p <= i < |s| && LosesLine(s, p, i);
      assert LosesLine(s, p + 1, i);
    }
    if LosesLines(s, p + 1) {
      var i :| p + 1 <= i < |s| && LosesLine(s, p + 1, i);
      assert LosesLine(s, p, i);
    }
  }

  /**
   The rows of a text are never more than the lines of the text with its line ends normalised, and as many exactly
   when no run of alternating line ends starts with LF and ends with CR.
   */
  lemma {:induction false} RowsAreNormalizedLines(s: bytes, tabsize: nat, c: Cursor)
    requires tabsize >= 1 && c.stamp <= |s| && 0 !in s
    ensures var r := AtEnd(s, tabsize, c);
            && r.Stored? && r.cursor.row - c.row <= Lines(s, c.stamp)
            && (r.cursor.row - c.row == Lines(s, c.stamp) <==> !LosesLines(s, c.stamp))
    decreases |s| - c.stamp
  {
    hide Turn, Advance, RunEnd, Lines, LosesLines;
    AdvanceOnce(s, tabsize, false, c, |s|);
    if c.stamp == |s| {
      NoLines(s);
    } else if IsLineEnd(s[c.stamp]) {
      var e := RunEnd(s, c.stamp);
      RunRows(s, tabsize, c);
      RunLines(s, c.stamp);
      LosesAfterRun(s, c.stamp);
      RowsAreNormalizedLines(s, tabsize, Cursor(e, c.row + (e - c.stamp + 1) / 2, 0));
    } else {
      assert s[c.stamp] in s;
      OtherTurn(s, tabsize, c);
      LinesOnce(s, c.stamp);
      LosesAfterByte(s, c.stamp);
      RowsAreNormalizedLines(s, tabsize, Turn(s, tabsize, false, c));
    }
  }

  lemma NoLines(s: bytes)
    ensures Lines(s, |s|) == 0 && !LosesLines(s, |s|)
  {
    assert s[|s|..] == [];
  }

  lemma OtherTurn(s: bytes, tabsize: nat, c: Cursor)
    requires tabsize >= 1 && c.stamp < |s| && !IsLineEnd(s[c.stamp])
    ensures var u := Turn(s, tabsize, false, c); u.stamp == c.stamp + 1 && u.row == c.row && !Stuck(s, c.stamp, false)
  {}

  /** On a line without tabs, the column is the distance from where the line starts. */
  lemma {:induction false} ColumnsCount(s: bytes, tabsize: nat, c: Cursor, now: nat)
    requires tabsize >= 1 && c.stamp <= now <= |s| && 0 !in s
    requires forall i :: c.stamp <= i < now ==> s[i] != LF && s[i] != CR && s[i] != TAB
    ensures Advance(s, tabsize, false, c, now) == Stored(Cursor(now, c.row, c.col + (now - c.stamp)))
    decreases now - c.stamp
  {
    if c.stamp < now {
      assert s[c.stamp] in s;
      ColumnsCount(s, tabsize, Turn(s, tabsize, false, c), now);
    }
  }

  function TabStop(tabsize: nat, k: nat): nat {
    k * tabsize
  }

  /** A tab goes to the first tab stop behind it, and a line end to column 0 of the next row. */
  lemma TabAndLineEnd(s: bytes, tabsize: nat, utf8: bool, c: Cursor)
    requires tabsize >= 1 && c.stamp < |s| && (s[c.stamp] == TAB || IsLineEnd(s[c.stamp]))
    ensures var r := Advance(s, tabsize, utf8, c, c.stamp + 1);
            && r.Stored?
            && (s[c.stamp] == TAB ==>
                  r.cursor.row == c.row && r.cursor.stamp == c.stamp + 1
                  && c.col < r.cursor.col <= c.col + tabsize && exists k :: r.cursor.col == TabStop(tabsize, k))
            && (IsLineEnd(s[c.stamp]) ==> r.cursor.row == c.row + 1 && r.cursor.col == 0)
  {
    AdvanceOnce(s, tabsize, utf8, c, c.stamp + 1);
    if s[c.stamp] == TAB {
      var q := c.col / tabsize;
      assert c.col == tabsize * q + c.col % tabsize;
      assert TabStop(tabsize, q + 1) == (q + 1) * tabsize == tabsize * q + tabsize;
    }
  }

  /** The byte order mark and the two that are no characters take no column. */
  predicate NoColumn(u: nat) {
    u == 0xFEFF || u == 0xFFFE || u == 0xFFFF
  }

  function Characters(us: seq<nat>): bytes {
    if us == [] then [] else XmlUtf8.Utf8(us[0]) + Characters(us[1..])
  }

  function Columns(us: seq<nat>): nat {
    if us == [] then 0 else (if NoColumn(us[0]) then 0 else 1) + Columns(us[1..])
  }

  predicate Counted(u: nat) {
    XmlUtf8.IsScalar(u) && u != 0 && u != TAB && u != LF && u != CR
  }

  /** In UTF-8 the column grows by one for each character that takes one, whatever number of bytes it has. */
  lemma {:induction false} CharactersCount(s: bytes, tabsize: nat, c: Cursor, us: seq<nat>)
    requires tabsize >= 1 && Occurs(s, c.stamp, Characters(us)) && forall i :: 0 <= i < |us| ==> Counted(us[i])
    ensures var now := c.stamp + |Characters(us)|;
            Advance(s, tabsize, true, c, now) == Stored(Cursor(now, c.row, c.col + Columns(us)))
    decreases |us|
  {
    hide Turn, Stuck, Advance, Counted, Occurs, XmlUtf8.Utf8, NoColumn;
    var now := c.stamp + |Characters(us)|;
    AdvanceOnce(s, tabsize, true, c, now);
    if us != [] {
      var u := us[0];
      OccursSplit(s, c.stamp, XmlUtf8.Utf8(u), Characters(us[1..]));
      CharacterTurn(s, tabsize, c, u);
      CharactersCount(s, tabsize, Turn(s, tabsize, true, c), us[1..]);
    }
  }

  lemma CharacterTurn(s: bytes, tabsize: nat, c: Cursor, u: nat)
    requires tabsize >= 1 && Counted(u) && Occurs(s, c.stamp, XmlUtf8.Utf8(u))
    ensures XmlUtf8.Utf8(u) != [] && c.stamp < |s| && s[c.stamp] != 0 && !Stuck(s, c.stamp, true)
    ensures Turn(s, tabsize, true, c)
         == Cursor(c.stamp + |XmlUtf8.Utf8(u)|, c.row, c.col + if NoColumn(u) then 0 else 1)
  {
    hide XmlUtf8.Utf8, Occurs;
    var x, p := XmlUtf8.Utf8(u), c.stamp;
    OccursSlice(s, p, x);
    InBounds(s, p, x);
    LeadOf(u);
    assert s[p] == s[p..p + |x|][0];
    if s[p] == LEAD_0 {
      assert s[p + 1] == s[p..p + |x|][1] && s[p + 2] == s[p..p + |x|][2];
    }
  }

  lemma InBounds(s: bytes, p: nat, x: bytes)
    requires Occurs(s, p, x)
    ensures p + |x| <= |s|
  {}

  /** The lead byte tells the length, and of three-byte sequences under the last lead three take no column. */
  lemma LeadOf(u: nat)
    requires Counted(u)
    ensures var x := XmlUtf8.Utf8(u);
            && x != [] && XmlUtf8.ByteTable(x[0]) == |x| && x[0] != 0 && x[0] != TAB && !IsLineEnd(x[0])
            && (x[0] == LEAD_0 ==> |x| == 3 && x[1] != 0 && x[2] != 0 && (ZeroWidth(x[1], x[2]) <==> NoColumn(u)))
            && (NoColumn(u) ==> x[0] == LEAD_0)
  {}
}
