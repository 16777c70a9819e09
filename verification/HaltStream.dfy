/**
 * The server-sent-events reader that turns an `event: halt` frame into one onHalt call. It parses the stream as
 * chunks arrive, holding back the last partial line; the theorems compare that with one pass over the whole text.
 */
module HaltStream {
  import opened Wrappers
  import opened CodeUnits

  // ----- line ends

  /** The first replace of the source: every CR LF becomes LF. */
  function ReplaceCrLf(s: Text): Text {
    if s == [] then []
    else if |s| > 1 && s[0] == CR && s[1] == LF then [LF] + ReplaceCrLf(s[2..])
    else [s[0]] + ReplaceCrLf(s[1..])
  }

  /** The second: every CR left becomes LF. */
  function ReplaceCr(s: Text): Text {
    if s == [] then [] else [if s[0] == CR then LF else s[0]] + ReplaceCr(s[1..])
  }

  /** One pass: CR LF, CR and LF each end one line. */
  function Normalize(s: Text): Text {
    if s == [] then []
    else if s[0] != CR then [s[0]] + Normalize(s[1..])
    else if |s| > 1 && s[1] == LF then [LF] + Normalize(s[2..])
    else [LF] + Normalize(s[1..])
  }

  lemma {:induction false} TwoReplacesNormalize(s: Text)
    ensures ReplaceCr(ReplaceCrLf(s)) == Normalize(s)
    ensures CR !in Normalize(s)
  {
    if s != [] {
      if |s| > 1 && s[0] == CR && s[1] == LF {
        TwoReplacesNormalize(s[2..]);
        assert ([LF] + ReplaceCrLf(s[2..]))[1..] == ReplaceCrLf(s[2..]);
      } else {
        TwoReplacesNormalize(s[1..]);
        assert ([s[0]] + ReplaceCrLf(s[1..]))[1..] == ReplaceCrLf(s[1..]);
      }
    }
  }

  /** A cut that separates a CR from its LF. */
  predicate CutsCrLf(before: Text, after: Text) {
    before != [] && before[|before| - 1] == CR && after != [] && after[0] == LF
  }

  lemma NormalizeStep(x: Unit, s: Text)
    ensures Normalize([x] + s) == [if x == CR then LF else x] + Normalize(if CutsCrLf([x], s) then s[1..] else s)
  {
    assert ([x] + s)[1..] == s;
    assert s != [] ==> ([x] + s)[2..] == s[1..];
  }

  lemma NoText()
    ensures Normalize([]) == []
  {
  }

  /** Normalising piece by piece is normalising the whole, unless the cut falls inside a CR LF: then one LF too many. */
  lemma {:induction false} NormalizeAcrossCut(a: Text, b: Text)
    ensures !CutsCrLf(a, b) ==> Normalize(a) + Normalize(b) == Normalize(a + b)
    ensures CutsCrLf(a, b) ==> |Normalize(a)| + |Normalize(b)| == |Normalize(a + b)| + 1
    decreases |a|
  {
    hide Normalize;
    NoText();
    if a == [] {
      assert a + b == b;
    } else {
      var x, t := a[0], a[1..];
      assert a == [x] + t && a + b == [x] + (t + b);
      NormalizeStep(x, t);
      NormalizeStep(x, t + b);
      if CutsCrLf([x], t) {
        NormalizeAcrossCut(t[1..], b);
        assert (t + b)[1..] == t[1..] + b;
      } else if t != [] {
        NormalizeAcrossCut(t, b);
      } else {
        assert t + b == b && [x] == a;
        if CutsCrLf(a, b) {
          NormalizeStep(LF, b[1..]);
          assert b == [LF] + b[1..];
        }
      }
    }
  }

  lemma {:induction false} NormalizeKeeps(s: Text)
    requires CR !in s
    ensures Normalize(s) == s
  {
    if s != [] {
      NormalizeKeeps(s[1..]);
    }
  }

  // ----- lines

  /** String.prototype.split on LF. */
  function Split(s: Text): (lines: seq<Text>)
    ensures |lines| >= 1
  {
    if s == [] then [[]]
    else
      var rest := Split(s[1..]);
      if s[0] == LF then [[]] + rest else [[s[0]] + rest[0]] + rest[1..]
  }

  /** The lines are what LF separates: joined again they are the text, and none holds an LF. */
  lemma {:induction false} SplitJoins(s: Text)
    ensures Join(Split(s), LF) == s
    ensures forall i :: 0 <= i < |Split(s)| ==> LF !in Split(s)[i]
  {
    if s != [] {
      SplitJoins(s[1..]);
      var rest := Split(s[1..]);
      assert s == [s[0]] + s[1..];
      if s[0] == LF {
        assert ([[]] + rest)[1..] == rest;
      } else {
        assert ([[s[0]] + rest[0]] + rest[1..])[1..] == rest[1..];
      }
    }
  }

  /** The lines that are ended. */
  function Complete(s: Text): seq<Text> {
    var lines := Split(s);
    lines[..|lines| - 1]
  }

  /** What follows the last line end. */
  function Rest(s: Text): Text {
    var lines := Split(s);
    lines[|lines| - 1]
  }

  lemma {:induction false} NoLineEnd(s: Text)
    requires LF !in s
    ensures Complete(s) == [] && Rest(s) == s
  {
    if s != [] {
      NoLineEnd(s[1..]);
      assert s == [s[0]] + s[1..];
    }
  }

  lemma SplitStep(x: Unit, s: Text)
    ensures x == LF ==> Complete([x] + s) == [[]] + Complete(s) && Rest([x] + s) == Rest(s)
    ensures x != LF && Complete(s) == [] ==> Complete([x] + s) == [] && Rest([x] + s) == [x] + Rest(s)
    ensures x != LF && Complete(s) != [] ==>
              Complete([x] + s) == [[x] + Complete(s)[0]] + Complete(s)[1..] && Rest([x] + s) == Rest(s)
  {
    assert ([x] + s)[1..] == s;
  }

  /** Holding back the partial line loses nothing: splitting it together with what follows gives the rest. */
  lemma {:induction false} CarryOver(a: Text, b: Text)
    ensures Complete(a + b) == Complete(a) + Complete(Rest(a) + b)
    ensures Rest(a + b) == Rest(Rest(a) + b)
    ensures LF !in Rest(a)
    decreases |a|
  {
    hide Complete, Rest;
    NoLines();
    if a == [] {
      assert Rest(a) + b == b && a + b == b;
    } else {
      var x, t := a[0], a[1..];
      CarryOver(t, b);
      assert a == [x] + t && a + b == [x] + (t + b);
      SplitStep(x, t);
      SplitStep(x, t + b);
      if x != LF && Complete(t) == [] {
        assert Rest(a) + b == [x] + (Rest(t) + b);
        SplitStep(x, Rest(t) + b);
      }
    }
  }

  lemma NoLines()
    ensures Complete([]) == [] && Rest([]) == []
  {
  }

  // ----- one pass over the lines

  /** "event:" */
  function EventField(): Text { [101, 118, 101, 110, 116, 58] }

  /** "data:" */
  function DataField(): Text { [100, 97, 116, 97, 58] }

  /** "message", the name of an event that names none. */
  function Message(): Text { [109, 101, 115, 115, 97, 103, 101] }

  /** "halt" */
  function Halt(): Text { [104, 97, 108, 116] }

  /** "event:halt" */
  function EventHalt(): Text { EventField() + Halt() }

  /** "remote halt", for a payload that carries no reason. */
  function GenericReason(): Text { [114, 101, 109, 111, 116, 101, 32, 104, 97, 108, 116] }

  function EventName(line: Text): Text
    requires StartsWith(line, EventField())
  {
    var name := Trim(line[|EventField()|..]);
    if name == [] then Message() else name
  }

  function DataValue(line: Text): Text
    requires StartsWith(line, DataField())
  {
    var value := line[|DataField()|..];
    if value != [] && value[0] == SPACE then value[1..] else value
  }

  /** The last event line of a block names it. */
  function EventOf(block: seq<Text>): Text {
    if block == [] then Message()
    else
      var line := block[|block| - 1];
      if StartsWith(line, EventField()) then EventName(line) else EventOf(block[..|block| - 1])
  }

  /** The data lines of a block, in order. */
  function DataOf(block: seq<Text>): seq<Text> {
    if block == [] then []
    else
      var line := block[|block| - 1];
      DataOf(block[..|block| - 1]) + if StartsWith(line, DataField()) then [DataValue(line)] else []
  }

  predicate IsHalt(block: seq<Text>) {
    EventOf(block) == Halt() && DataOf(block) != []
  }

  function Payload(block: seq<Text>): Text {
    Join(DataOf(block), LF)
  }

  /** The blocks ended by a blank line, in order. */
  function Blocks(lines: seq<Text>): seq<seq<Text>> {
    if lines == [] then []
    else
      var before := lines[..|lines| - 1];
      if lines[|lines| - 1] == [] then Blocks(before) + [Open(before)] else Blocks(before)
  }

  /** The lines after the last blank one. */
  function Open(lines: seq<Text>): seq<Text> {
    if lines == [] || lines[|lines| - 1] == [] then []
    else Open(lines[..|lines| - 1]) + [lines[|lines| - 1]]
  }

  function FirstHalt(blocks: seq<seq<Text>>): Option<Text> {
    if blocks == [] then None
    else
      var earlier := FirstHalt(blocks[..|blocks| - 1]);
      if earlier.Some? then earlier
      else if IsHalt(blocks[|blocks| - 1]) then Some(Payload(blocks[|blocks| - 1]))
      else None
  }

  /** What one pass over an already normalised stream dispatches. */
  function OnePass(stream: Text): Option<Text> {
    FirstHalt(Blocks(Complete(stream)))
  }

  /** FirstHalt is the first block that is a halt: nothing before it is one. */
  lemma {:induction false} FirstHaltIsFirst(blocks: seq<seq<Text>>)
    ensures FirstHalt(blocks).None? <==> forall i :: 0 <= i < |blocks| ==> !IsHalt(blocks[i])
    ensures FirstHalt(blocks).Some? ==>
              exists i :: 0 <= i < |blocks| && IsHalt(blocks[i]) && FirstHalt(blocks) == Some(Payload(blocks[i]))
                       && forall j :: 0 <= j < i ==> !IsHalt(blocks[j])
  {
    hide IsHalt, Payload;
    if blocks != [] {
      var n := |blocks| - 1;
      FirstHaltIsFirst(blocks[..n]);
      if FirstHalt(blocks[..n]).Some? {
        var i :| 0 <= i < n && IsHalt(blocks[..n][i]) && FirstHalt(blocks[..n]) == Some(Payload(blocks[..n][i]))
                 && forall j :: 0 <= j < i ==> !IsHalt(blocks[..n][j]);
        assert forall j :: 0 <= j < i ==> blocks[..n][j] == blocks[j];
        assert IsHalt(blocks[i]);
      } else {
        assert forall j :: 0 <= j < n ==> blocks[..n][j] == blocks[j];
      }
    }
  }

  lemma LineStep(lines: seq<Text>, line: Text)
    ensures line == [] ==> Open(lines + [line]) == [] && Blocks(lines + [line]) == Blocks(lines) + [Open(lines)]
    ensures line != [] ==> Open(lines + [line]) == Open(lines) + [line] && Blocks(lines + [line]) == Blocks(lines)
  {
    assert (lines + [line])[..|lines|] == lines;
  }

  lemma FieldStep(block: seq<Text>, line: Text)
    ensures EventOf(block + [line]) == if StartsWith(line, EventField()) then EventName(line) else EventOf(block)
    ensures DataOf(block + [line]) == DataOf(block) + if StartsWith(line, DataField()) then [DataValue(line)] else []
  {
    assert (block + [line])[..|block|] == block;
  }

  lemma HaltStep(blocks: seq<seq<Text>>, block: seq<Text>)
    ensures FirstHalt(blocks + [block]) ==
            if FirstHalt(blocks).Some? then FirstHalt(blocks) else if IsHalt(block) then Some(Payload(block)) else None
  {
    assert (blocks + [block])[..|blocks|] == blocks;
  }

  /** A halt once found stays the answer whatever follows. */
  lemma {:induction false} HaltStays(lines: seq<Text>, more: seq<Text>)
    requires FirstHalt(Blocks(lines)).Some?
    ensures FirstHalt(Blocks(lines + more)) == FirstHalt(Blocks(lines))
    decreases |more|
  {
    hide FirstHalt, Blocks, Open;
    if more == [] {
      assert lines + more == lines;
    } else {
      var n := |more| - 1;
      HaltStays(lines, more[..n]);
      assert lines + more == (lines + more[..n]) + [more[n]];
      LineStep(lines + more[..n], more[n]);
      HaltStep(Blocks(lines + more[..n]), Open(lines + more[..n]));
    }
  }

  // ----- the stream in chunks

  function Concat(chunks: seq<Text>): Text {
    if chunks == [] then [] else Concat(chunks[..|chunks| - 1]) + chunks[|chunks| - 1]
  }

  /** The chunks, each normalised on its own. */
  function Pieces(chunks: seq<Text>): Text {
    if chunks == [] then [] else Pieces(chunks[..|chunks| - 1]) + Normalize(chunks[|chunks| - 1])
  }

  ghost predicate NoCutInCrLf(chunks: seq<Text>) {
    forall k :: 0 <= k < |chunks| ==> !CutsCrLf(Concat(chunks[..k]), chunks[k])
  }

  /** Chunk-wise normalisation is normalisation of the stream exactly when no cut falls between a CR and its LF. */
  lemma {:induction false} PiecesAreNormalized(chunks: seq<Text>)
    ensures |Pieces(chunks)| >= |Normalize(Concat(chunks))|
    ensures Pieces(chunks) == Normalize(Concat(chunks)) <==> NoCutInCrLf(chunks)
  {
    hide Normalize, CutsCrLf, NoCutInCrLf, Concat, Pieces;
    ConcatStep(chunks);
    NoCutStep(chunks);
    if chunks == [] {
      NoText();
    } else {
      var n := |chunks| - 1;
      PiecesAreNormalized(chunks[..n]);
      NormalizeAcrossCut(Concat(chunks[..n]), chunks[n]);
      if Pieces(chunks) == Normalize(Concat(chunks)) {
        assert |Pieces(chunks[..n])| == |Normalize(Concat(chunks[..n]))|;
        assert !CutsCrLf(Concat(chunks[..n]), chunks[n]);
        SameSuffix(Pieces(chunks[..n]), Normalize(Concat(chunks[..n])), Normalize(chunks[n]));
      }
    }
  }

  lemma ConcatStep(chunks: seq<Text>)
    ensures chunks == [] ==> Concat(chunks) == [] && Pieces(chunks) == []
    ensures chunks != [] ==>
              var n := |chunks| - 1;
              && Concat(chunks) == Concat(chunks[..n]) + chunks[n]
              && Pieces(chunks) == Pieces(chunks[..n]) + Normalize(chunks[n])
  {
  }

  lemma NoCutStep(chunks: seq<Text>)
    ensures chunks == [] ==> NoCutInCrLf(chunks)
    ensures chunks != [] ==>
              var n := |chunks| - 1;
              NoCutInCrLf(chunks) <==> NoCutInCrLf(chunks[..n]) && !CutsCrLf(Concat(chunks[..n]), chunks[n])
  {
    hide CutsCrLf, Concat;
    if chunks != [] {
      var n := |chunks| - 1;
      assert forall k :: 0 <= k < n ==> chunks[..n][..k] == chunks[..k] && chunks[..n][k] == chunks[k];
    }
  }

  lemma SameSuffix(a: Text, b: Text, c: Text)
    requires a + c == b + c
    ensures a == b
  {
    assert a == (a + c)[..|a|] && b == (b + c)[..|b|];
  }

  /** What the reader hands to its callback, if anything, after these chunks. */
  function Dispatched(chunks: seq<Text>): Option<Text> {
    OnePass(Pieces(chunks))
  }

  // ----- a line end counted twice

  /** A blank line more makes no difference here: a halt is found already, or no data and no halt are pending. */
  predicate Harmless(lines: seq<Text>) {
    FirstHalt(Blocks(lines)).Some? || (DataOf(Open(lines)) == [] && EventOf(Open(lines)) != Halt())
  }

  /** Two lists of lines after which the same lines dispatch the same. */
  ghost predicate Alike(l: seq<Text>, m: seq<Text>) {
    && FirstHalt(Blocks(l)) == FirstHalt(Blocks(m))
    && (|| FirstHalt(Blocks(l)).Some?
        || (&& DataOf(Open(l)) == DataOf(Open(m))
            && (EventOf(Open(l)) == Halt() <==> EventOf(Open(m)) == Halt())))
  }

  lemma AlikeStep(l: seq<Text>, m: seq<Text>, line: Text)
    requires Alike(l, m)
    ensures Alike(l + [line], m + [line])
  {
    hide FirstHalt, Blocks, Open, EventOf, DataOf, EventName, DataValue;
    LineStep(l, line);
    LineStep(m, line);
    HaltStep(Blocks(l), Open(l));
    HaltStep(Blocks(m), Open(m));
    FieldStep(Open(l), line);
    FieldStep(Open(m), line);
  }

  lemma {:induction false} AlikeThrough(l: seq<Text>, m: seq<Text>, more: seq<Text>)
    requires Alike(l, m)
    ensures Alike(l + more, m + more)
    decreases |more|
  {
    hide Alike;
    if more == [] {
      assert l + more == l && m + more == m;
    } else {
      var n := |more| - 1;
      AlikeThrough(l, m, more[..n]);
      AlikeStep(l + more[..n], m + more[..n], more[n]);
      assert l + more == (l + more[..n]) + [more[n]] && m + more == (m + more[..n]) + [more[n]];
    }
  }

  lemma HarmlessBlank(l: seq<Text>)
    requires Harmless(l)
    ensures Alike(l + [[]], l)
  {
    hide FirstHalt, Blocks, Open, EventOf, DataOf;
    LineStep(l, []);
    HaltStep(Blocks(l), Open(l));
    EmptyBlock();
  }

  /** Two more lines that a harmful blank line in front of them turns from a dispatch into none. */
  lemma LostAfterBlank(l: seq<Text>, line: Text)
    requires FirstHalt(Blocks(l)) == None && line != []
    requires !IsHalt(Open(l)) && IsHalt(Open(l) + [line]) && !IsHalt([line])
    ensures FirstHalt(Blocks(l + [line, []])).Some? && FirstHalt(Blocks(l + [[]] + [line, []])) == None
  {
    hide FirstHalt, Blocks, Open, IsHalt, Payload;
    LineStep(l, line);
    LineStep(l + [line], []);
    HaltStep(Blocks(l), Open(l) + [line]);
    assert l + [line, []] == (l + [line]) + [[]];
    var c := l + [[]];
    LineStep(l, []);
    HaltStep(Blocks(l), Open(l));
    LineStep(c, line);
    LineStep(c + [line], []);
    HaltStep(Blocks(c), [line]);
    assert c + [line, []] == (c + [line]) + [[]] && [] + [line] == [line];
  }

  /** Text whose lines a harmful blank line in front of them makes dispatch differently. */
  function Telltale(lines: seq<Text>): Text {
    if IsHalt(Open(lines)) then []
    else if EventOf(Open(lines)) == Halt() then DataField() + [LF] + [LF]
    else EventHalt() + [LF] + [LF]
  }

  lemma TelltaleLines(lines: seq<Text>)
    ensures var l := Complete(Normalize(Telltale(lines)));
      l == if IsHalt(Open(lines)) then []
           else if EventOf(Open(lines)) == Halt() then [DataField(), []] else [EventHalt(), []]
  {
    hide IsHalt, EventOf, Open, Normalize, Complete;
    NoText();
    NoLines();
    BlankEnd();
    NormalizeKeeps(DataField() + [LF] + [LF]);
    NormalizeKeeps(EventHalt() + [LF] + [LF]);
    LineThen(DataField(), [LF]);
    LineThen(EventHalt(), [LF]);
  }

  lemma HarmfulBlank(l: seq<Text>)
    requires !Harmless(l)
    ensures var more := Complete(Normalize(Telltale(l)));
      FirstHalt(Blocks(l + [[]] + more)) != FirstHalt(Blocks(l + more))
  {
    hide FirstHalt, Blocks, Open, EventOf, DataOf, Normalize, Complete, Telltale, DataValue, Payload;
    TelltaleLines(l);
    EmptyBlock();
    if IsHalt(Open(l)) {
      LineStep(l, []);
      HaltStep(Blocks(l), Open(l));
      assert l + [[]] + [] == l + [[]] && l + [] == l;
    } else if EventOf(Open(l)) == Halt() {
      FieldStep(Open(l), DataField());
      FieldStep([], DataField());
      OneField(DataField());
      assert [] + [DataField()] == [DataField()];
      LostAfterBlank(l, DataField());
    } else {
      FieldStep(Open(l), EventHalt());
      FieldStep([], EventHalt());
      OneField(EventHalt());
      TrimHalt();
      assert [] + [EventHalt()] == [EventHalt()] && EventHalt()[|EventField()|..] == Halt();
      LostAfterBlank(l, EventHalt());
    }
  }

  /** Among lines: a blank line more goes unnoticed, whatever follows, exactly where it is harmless. */
  lemma ExtraBlankLine(l: seq<Text>)
    ensures (forall more :: FirstHalt(Blocks(l + [[]] + more)) == FirstHalt(Blocks(l + more))) <==> Harmless(l)
  {
    hide FirstHalt, Blocks, Harmless;
    if Harmless(l) {
      HarmlessBlank(l);
      forall more
        ensures FirstHalt(Blocks(l + [[]] + more)) == FirstHalt(Blocks(l + more))
      {
        AlikeThrough(l + [[]], l, more);
      }
    } else {
      HarmfulBlank(l);
    }
  }

  // ----- the same in chunks

  /** Every cut inside a CR LF comes where the blank line it adds is harmless. */
  ghost predicate HarmlessCuts(chunks: seq<Text>) {
    forall k :: 0 <= k < |chunks| && CutsCrLf(Concat(chunks[..k]), chunks[k]) ==>
      Harmless(Complete(Pieces(chunks[..k])))
  }

  lemma HarmlessInit(chunks: seq<Text>)
    requires chunks != []
    ensures var n := |chunks| - 1;
      HarmlessCuts(chunks) <==>
        && HarmlessCuts(chunks[..n])
        && (CutsCrLf(Concat(chunks[..n]), chunks[n]) ==> Harmless(Complete(Pieces(chunks[..n]))))
  {
    hide CutsCrLf, Concat, Pieces, Harmless, Complete;
    var n := |chunks| - 1;
    assert forall k :: 0 <= k < n ==> chunks[..n][..k] == chunks[..k] && chunks[..n][k] == chunks[k];
  }

  /** CR at the end of the text so far: its line is ended, and an LF would add nothing to it. */
  lemma AfterCr(t: Text)
    requires t != [] && t[|t| - 1] == CR
    ensures Normalize(t + [LF]) == Normalize(t) && Normalize(t) != [] && Normalize(t)[|Normalize(t)| - 1] == LF
  {
    hide Normalize;
    var u := t[..|t| - 1];
    assert t == u + [CR] && t + [LF] == u + [CR, LF];
    NormalizeEnds();
    NormalizeAcrossCut(u, [CR]);
    NormalizeAcrossCut(u, [CR, LF]);
  }

  lemma {:induction false} PiecesAfterCr(chunks: seq<Text>)
    requires Concat(chunks) != [] && Concat(chunks)[|Concat(chunks)| - 1] == CR
    ensures Pieces(chunks) != [] && Pieces(chunks)[|Pieces(chunks)| - 1] == LF
  {
    hide Normalize;
    var n := |chunks| - 1;
    if chunks[n] == [] {
      NoText();
      assert Concat(chunks) == Concat(chunks[..n]) && Pieces(chunks) == Pieces(chunks[..n]);
      PiecesAfterCr(chunks[..n]);
    } else {
      AfterCr(chunks[n]);
    }
  }

  lemma {:induction false} NothingHeld(s: Text)
    requires s != [] && s[|s| - 1] == LF
    ensures Rest(s) == []
  {
    hide Complete, Rest;
    var t := s[1..];
    assert s == [s[0]] + t;
    NoLines();
    SplitStep(s[0], t);
    if t != [] {
      NothingHeld(t);
      LastLine(t);
    }
  }

  lemma {:induction false} LastLine(s: Text)
    requires s != [] && s[|s| - 1] == LF
    ensures Complete(s) != []
  {
    if |s| > 1 {
      LastLine(s[1..]);
    }
  }

  /** The lines of the stream with a cut between this text and an LF, and without it. */
  lemma CutLines(chunks: seq<Text>, rest: Text)
    requires Concat(chunks) != [] && Concat(chunks)[|Concat(chunks)| - 1] == CR
    ensures var more := Complete(Normalize(rest));
      && Complete(Pieces(chunks + [[LF] + rest])) == Complete(Pieces(chunks)) + [[]] + more
      && Complete(Normalize(Concat(chunks) + [LF] + rest)) == Complete(Normalize(Concat(chunks))) + more
      && Rest(Pieces(chunks + [[LF] + rest])) == Rest(Normalize(rest)) == Rest(Normalize(Concat(chunks) + [LF] + rest))
  {
    hide Complete, Rest, Normalize, Pieces, Concat;
    var t, p, r := Concat(chunks), Pieces(chunks), Normalize(rest);
    AfterCr(t);
    PiecesAfterCr(chunks);
    NothingHeld(p);
    NothingHeld(Normalize(t));
    PiecesStep(chunks, [LF] + rest);
    NormalizeStep(LF, rest);
    NormalizeAcrossCut(t + [LF], rest);
    CarryOver(p, [LF] + r);
    CarryOver(Normalize(t), r);
    SplitStep(LF, r);
    assert [] + r == r && [] + ([LF] + r) == [LF] + r;
    assert Complete(p) + ([[]] + Complete(r)) == Complete(p) + [[]] + Complete(r);
  }

  lemma {:induction false} HarmlessCutsAlike(chunks: seq<Text>)
    requires HarmlessCuts(chunks)
    ensures Alike(Complete(Pieces(chunks)), Complete(Normalize(Concat(chunks))))
    ensures Rest(Pieces(chunks)) == Rest(Normalize(Concat(chunks)))
  {
    hide Complete, Rest, Normalize, Pieces, Concat, Alike, Harmless, HarmlessCuts;
    ConcatStep(chunks);
    NoText();
    if chunks == [] {
      AlikeItself(Complete([]));
    } else {
      var n := |chunks| - 1;
      var before, c := chunks[..n], chunks[n];
      HarmlessInit(chunks);
      HarmlessCutsAlike(before);
      var l, m := Complete(Pieces(before)), Complete(Normalize(Concat(before)));
      assert chunks == before + [c];
      if CutsCrLf(Concat(before), c) {
        assert c == [LF] + c[1..] && Concat(before) + [LF] + c[1..] == Concat(before) + c;
        CutLines(before, c[1..]);
        HarmlessBlank(l);
        AlikeTransitive(l + [[]], l, m);
        AlikeThrough(l + [[]], m, Complete(Normalize(c[1..])));
      } else {
        NormalizeAcrossCut(Concat(before), c);
        CarryOver(Pieces(before), Normalize(c));
        CarryOver(Normalize(Concat(before)), Normalize(c));
        AlikeThrough(l, m, Complete(Rest(Pieces(before)) + Normalize(c)));
      }
    }
  }

  lemma AlikeItself(l: seq<Text>)
    ensures Alike(l, l)
  {
  }

  lemma AlikeTransitive(l: seq<Text>, m: seq<Text>, k: seq<Text>)
    requires Alike(l, m) && Alike(m, k)
    ensures Alike(l, k)
  {
    hide FirstHalt, Blocks, Open, EventOf, DataOf;
  }

  lemma AlikeSame(l: seq<Text>, m: seq<Text>)
    requires Alike(l, m)
    ensures FirstHalt(Blocks(l)) == FirstHalt(Blocks(m))
  {
  }

  /** The reader agrees with one pass over the normalised stream when every cut inside a CR LF is harmless. */
  lemma DispatchIsOnePass(chunks: seq<Text>)
    requires HarmlessCuts(chunks)
    ensures Dispatched(chunks) == OnePass(Normalize(Concat(chunks)))
  {
    hide HarmlessCuts, Alike, FirstHalt, Blocks, Complete, Pieces, Concat, Normalize;
    HarmlessCutsAlike(chunks);
    AlikeSame(Complete(Pieces(chunks)), Complete(Normalize(Concat(chunks))));
  }

  /** In particular when there is none. */
  lemma NoCutIsHarmless(chunks: seq<Text>)
    requires NoCutInCrLf(chunks)
    ensures HarmlessCuts(chunks)
  {
  }

  /** After these chunks, a cut before an LF goes unnoticed whatever text follows. */
  ghost predicate AgreesAcrossCut(chunks: seq<Text>) {
    forall rest: Text :: Dispatched(chunks + [[LF] + rest]) == OnePass(Normalize(Concat(chunks) + [LF] + rest))
  }

  /** Of a further cut inside a CR LF: it goes unnoticed exactly where the blank line it adds is harmless. */
  lemma CutExactly(chunks: seq<Text>)
    requires HarmlessCuts(chunks) && Concat(chunks) != [] && Concat(chunks)[|Concat(chunks)| - 1] == CR
    ensures AgreesAcrossCut(chunks) <==> Harmless(Complete(Pieces(chunks)))
  {
    hide HarmlessCuts, Harmless, Alike, FirstHalt, Blocks, Complete, Rest, Pieces, Concat, Normalize, Telltale;
    var l, m := Complete(Pieces(chunks)), Complete(Normalize(Concat(chunks)));
    HarmlessCutsAlike(chunks);
    forall rest: Text
      ensures Dispatched(chunks + [[LF] + rest]) == FirstHalt(Blocks(l + [[]] + Complete(Normalize(rest))))
      ensures OnePass(Normalize(Concat(chunks) + [LF] + rest)) == FirstHalt(Blocks(l + Complete(Normalize(rest))))
    {
      CutLines(chunks, rest);
      AlikeThrough(l, m, Complete(Normalize(rest)));
      AlikeSame(l + Complete(Normalize(rest)), m + Complete(Normalize(rest)));
    }
    ExtraBlankLine(l);
    if !Harmless(l) {
      HarmfulBlank(l);
      assert Dispatched(chunks + [[LF] + Telltale(l)]) != OnePass(Normalize(Concat(chunks) + [LF] + Telltale(l)));
    }
  }

  /** All cuts together: they are harmless exactly when each goes unnoticed whatever text follows it. */
  lemma {:induction false} HarmlessCutsExactly(chunks: seq<Text>)
    ensures HarmlessCuts(chunks) <==>
      forall k :: 0 <= k < |chunks| && CutsCrLf(Concat(chunks[..k]), chunks[k]) ==> AgreesAcrossCut(chunks[..k])
  {
    hide AgreesAcrossCut, Harmless, Complete, Pieces, Concat, HarmlessCuts;
    if chunks == [] {
      NoChunks();
    } else {
      var n := |chunks| - 1;
      HarmlessCutsExactly(chunks[..n]);
      HarmlessInit(chunks);
      assert forall k :: 0 <= k < n ==> chunks[..n][..k] == chunks[..k] && chunks[..n][k] == chunks[k];
      if HarmlessCuts(chunks[..n]) && CutsCrLf(Concat(chunks[..n]), chunks[n]) {
        CutExactly(chunks[..n]);
      }
    }
  }

  lemma NoChunks()
    ensures HarmlessCuts([])
  {
  }

  /** Two ways of cutting one stream, all their cuts harmless, make no difference. */
  lemma ChunkIndependence(chunks: seq<Text>, others: seq<Text>)
    requires Concat(chunks) == Concat(others) && HarmlessCuts(chunks) && HarmlessCuts(others)
    ensures Dispatched(chunks) == Dispatched(others)
  {
    hide OnePass, HarmlessCuts, Normalize, Dispatched;
    DispatchIsOnePass(chunks);
    DispatchIsOnePass(others);
  }

  /** Text that ends no line changes nothing: an unterminated tail is never dispatched. */
  lemma TailIsIgnored(stream: Text, tail: Text)
    requires LF !in tail
    ensures OnePass(stream + tail) == OnePass(stream)
  {
    hide FirstHalt, Blocks;
    CarryOver(stream, tail);
    CarryOver(stream, []);
    NoLineEnd(Rest(stream) + tail);
    assert Complete(stream) + [] == Complete(stream);
  }

  /** What is dispatched after some chunks stays dispatched: later chunks change nothing. */
  lemma {:induction false} DispatchStays(chunks: seq<Text>, more: seq<Text>)
    requires Dispatched(chunks).Some?
    ensures Dispatched(chunks + more) == Dispatched(chunks)
    decreases |more|
  {
    hide FirstHalt, Blocks, Complete, Rest, Normalize;
    if more == [] {
      assert chunks + more == chunks;
    } else {
      var n := |more| - 1;
      var before := chunks + more[..n];
      DispatchStays(chunks, more[..n]);
      assert chunks + more == before + [more[n]];
      PiecesStep(before, more[n]);
      CarryOver(Pieces(before), Normalize(more[n]));
      HaltStays(Complete(Pieces(before)), Complete(Rest(Pieces(before)) + Normalize(more[n])));
    }
  }

  lemma PiecesStep(chunks: seq<Text>, text: Text)
    ensures Pieces(chunks + [text]) == Pieces(chunks) + Normalize(text)
  {
    assert (chunks + [text])[..|chunks|] == chunks;
  }

  // ----- the reader

  /** One awaited read; `stop` tells whether stop() was called while it was awaited. */
  datatype Read = Chunk(text: Text, stop: bool) | Done(stop: bool) | Failed(stop: bool)

  /** What fetch came to. */
  datatype Connection = Refused(stop: bool) | Response(status: int, body: Option<seq<Read>>, stop: bool)

  /** The chunks read before the stream ends, fails or is stopped. */
  function ChunksOf(input: seq<Read>, stopped: bool): seq<Text> {
    if input == [] || !input[0].Chunk? || stopped || input[0].stop then []
    else [input[0].text] + ChunksOf(input[1..], false)
  }

  function Reason(reasonIn: Text -> Option<Text>, raw: Text): Text {
    match reasonIn(raw) case Some(reason) => reason case None => GenericReason()
  }

  /** The onHalt calls made for what was dispatched. */
  function Calls(dispatched: Option<Text>, reasonIn: Text -> Option<Text>): (calls: seq<Text>)
    ensures |calls| <= 1
  {
    match dispatched case None => [] case Some(raw) => [Reason(reasonIn, raw)]
  }

  class HaltStreamReader {
    var started: bool
    var stopped: bool
    var halts: seq<Text>   // the onHalt calls made

    ghost predicate Valid()
      reads this
    {
      |halts| <= 1 && (!started ==> halts == [])
    }

    constructor ()
      ensures Valid() && !started && !stopped && halts == []
    {
      started, stopped, halts := false, false, [];
    }

    method Stop()
      requires Valid()
      modifies this`stopped
      ensures Valid() && stopped
    {
      if stopped {
        return;
      }
      stopped := true;
    }

    /** start: the first call reads the stream, every later one does nothing. */
    method Start(connection: Connection, reasonIn: Text -> Option<Text>)
      requires Valid()
      modifies this
      ensures Valid() && started
      ensures old(started) ==> halts == old(halts)
      ensures !old(started) ==>
                if connection.Response? && connection.status == 200 && connection.body.Some? then
                  var chunks := ChunksOf(connection.body.value, old(stopped) || connection.stop);
                  halts == Calls(Dispatched(chunks), reasonIn)
                else halts == []
    {
      if started {
        return;
      }
      started := true;
      stopped := stopped || connection.stop;
      if connection.Refused? || connection.status != 200 || connection.body.None? {
        return;
      }
      Run(connection.body.value, reasonIn);
    }

    /** The read loop of _run. */
    method Run(input: seq<Read>, reasonIn: Text -> Option<Text>)
      requires halts == []
      modifies this
      ensures started == old(started)
      ensures halts == Calls(Dispatched(ChunksOf(input, old(stopped))), reasonIn)
    {
      hide Parsed, Complete, Rest, Normalize, Dispatched, Pieces, FirstHalt, Blocks;
      var buffer: Text := [];
      var currentEvent := Message();
      var dataLines: seq<Text> := [];
      ghost var chunks: seq<Text> := [];
      NothingParsed();
      var k := 0;
      while k < |input|
        invariant 0 <= k <= |input| && started == old(started) && halts == []
        invariant chunks + ChunksOf(input[k..], stopped) == ChunksOf(input, old(stopped))
        invariant buffer == Rest(Pieces(chunks)) && CR !in buffer
        invariant Parsed(Complete(Pieces(chunks)), currentEvent, dataLines)
      {
        var read := input[k];
        ghost var later := ChunksOf(input[k + 1..], false);
        assert input[k..][1..] == input[k + 1..];
        stopped := stopped || read.stop;
        if !read.Chunk? || stopped {
          break;
        }
        assert chunks + ([read.text] + later) == chunks + [read.text] + later;
        ChunkStep(Pieces(chunks), read.text);
        PiecesStep(chunks, read.text);
        buffer := ReplaceCr(ReplaceCrLf(buffer + read.text));
        var lines := Complete(buffer);
        buffer := Rest(buffer);
        var halted;
        halted, currentEvent, dataLines := ConsumeLines(Complete(Pieces(chunks)), lines, currentEvent, dataLines);
        chunks := chunks + [read.text];
        DispatchedSoFar(chunks);
        if halted.Some? {
          halts := halts + [Reason(reasonIn, halted.value)];
          DispatchStays(chunks, later);
          return;
        }
        k := k + 1;
      }
      NotYet(Complete(Pieces(chunks)), currentEvent, dataLines);
      DispatchedSoFar(chunks);
      assert chunks + [] == chunks;
    }

    /** The loop over the lines of one chunk; nothing can call stop() meanwhile. */
    method ConsumeLines(ghost before: seq<Text>, lines: seq<Text>, event: Text, data: seq<Text>)
      returns (halted: Option<Text>, currentEvent: Text, dataLines: seq<Text>)
      requires Parsed(before, event, data)
      ensures halted == FirstHalt(Blocks(before + lines))
      ensures halted.None? ==> Parsed(before + lines, currentEvent, dataLines)
    {
      hide FirstHalt, Blocks, Open, EventOf, DataOf;
      currentEvent, dataLines := event, data;
      assert before + lines[..0] == before;
      for i := 0 to |lines|
        invariant Parsed(before + lines[..i], currentEvent, dataLines)
      {
        var line := lines[i];
        OneField(line);
        ghost var sofar := before + lines[..i];
        assert before + lines[..i + 1] == sofar + [line];
        LineStep(sofar, line);
        FieldStep(Open(sofar), line);
        HaltStep(Blocks(sofar), Open(sofar));
        if line == [] {
          if currentEvent == Halt() && dataLines != [] {
            assert before + lines == (sofar + [line]) + lines[i + 1..];
            HaltStays(sofar + [line], lines[i + 1..]);
            return Some(Join(dataLines, LF)), currentEvent, dataLines;
          }
          currentEvent, dataLines := Message(), [];
          EmptyBlock();
        } else if StartsWith(line, [COLON]) {
          // a comment
        } else if StartsWith(line, EventField()) {
          var name := Trim(line[|EventField()|..]);
          currentEvent := if name == [] then Message() else name;
        } else if StartsWith(line, DataField()) {
          var value := line[|DataField()|..];
          LeadingSpace(value);
          if StartsWith(value, [SPACE]) {
            value := value[1..];
          }
          dataLines := dataLines + [value];
        }
      }
      assert before + lines[..|lines|] == before + lines;
      halted := None;
    }
  }

  // ----- what the loops keep

  /** The loop variables after these lines: no halt so far, and the fields of the block still open. */
  ghost predicate Parsed(lines: seq<Text>, currentEvent: Text, dataLines: seq<Text>) {
    && FirstHalt(Blocks(lines)) == None
    && currentEvent == EventOf(Open(lines))
    && dataLines == DataOf(Open(lines))
  }

  lemma NothingParsed()
    ensures Parsed(Complete([]), Message(), []) && Rest([]) == [] && Pieces([]) == []
  {
  }

  /** A line is at most one of a comment, an event field and a data field. */
  lemma OneField(line: Text)
    ensures StartsWith(line, [COLON]) ==> !StartsWith(line, EventField()) && !StartsWith(line, DataField())
    ensures StartsWith(line, EventField()) ==> !StartsWith(line, DataField())
  {
    assert StartsWith(line, [COLON]) ==> line[0] == COLON;
    assert StartsWith(line, EventField()) ==> line[0] == EventField()[0];
    assert StartsWith(line, DataField()) ==> line[0] == DataField()[0];
  }

  lemma LeadingSpace(value: Text)
    ensures StartsWith(value, [SPACE]) <==> value != [] && value[0] == SPACE
  {
    assert value != [] ==> value == [value[0]] + value[1..];
  }

  lemma EmptyBlock()
    ensures EventOf([]) == Message() && DataOf([]) == []
  {
  }

  lemma DispatchedSoFar(chunks: seq<Text>)
    ensures Dispatched(chunks) == FirstHalt(Blocks(Complete(Pieces(chunks))))
  {
  }

  lemma NotYet(lines: seq<Text>, currentEvent: Text, dataLines: seq<Text>)
    requires Parsed(lines, currentEvent, dataLines)
    ensures FirstHalt(Blocks(lines)) == None
  {
  }

  lemma {:induction false} RestIsPart(s: Text)
    ensures forall c :: c in Rest(s) ==> c in s
  {
    if s != [] {
      RestIsPart(s[1..]);
      SplitStep(s[0], s[1..]);
      assert s == [s[0]] + s[1..];
    }
  }

  /** One chunk: normalising it behind the held-back line and splitting goes on where the lines so far ended. */
  lemma ChunkStep(before: Text, text: Text)
    requires CR !in Rest(before)
    ensures var buffer := ReplaceCr(ReplaceCrLf(Rest(before) + text));
      && Complete(before + Normalize(text)) == Complete(before) + Complete(buffer)
      && Rest(before + Normalize(text)) == Rest(buffer) && CR !in Rest(buffer)
  {
    hide Rest, Complete;
    var buffer := ReplaceCr(ReplaceCrLf(Rest(before) + text));
    TwoReplacesNormalize(Rest(before) + text);
    NormalizeKeeps(Rest(before));
    NormalizeAcrossCut(Rest(before), text);
    CarryOver(before, Normalize(text));
    RestIsPart(buffer);
  }

  // ----- a cut inside a CR LF

  lemma {:induction false} LineThen(line: Text, rest: Text)
    requires LF !in line
    ensures Complete(line + [LF] + rest) == [line] + Complete(rest)
  {
    if line == [] {
      SplitStep(LF, rest);
      assert line + [LF] + rest == [LF] + rest;
    } else {
      LineThen(line[1..], rest);
      SplitStep(line[0], line[1..] + [LF] + rest);
      assert line + [LF] + rest == [line[0]] + (line[1..] + [LF] + rest);
      assert line == [line[0]] + line[1..];
    }
  }

  lemma FrameFields(data: Text)
    requires StartsWith(data, DataField())
    ensures IsHalt([EventHalt(), data]) && Payload([EventHalt(), data]) == DataValue(data)
    ensures !IsHalt([EventHalt()]) && !IsHalt([data])
  {
    hide EventOf, DataOf, DataValue, Trim;
    var e := EventHalt();
    EmptyBlock();
    OneField(e);
    OneField(data);
    TrimHalt();
    assert e[|EventField()|..] == Halt();
    FieldStep([], e);
    FieldStep([e], data);
    FieldStep([], data);
    assert [] + [e] == [e] && [] + [data] == [data] && [e] + [data] == [e, data];
    assert DataOf([e, data]) == [] + [DataValue(data)] == [DataValue(data)];
  }

  lemma TrimHalt()
    ensures Trim(Halt()) == Halt()
  {
    assert !IsSpace(Halt()[0]) && !IsSpace(Halt()[3]);
  }

  lemma FrameBlocks(e: Text, data: Text)
    requires e != [] && data != []
    ensures Blocks([e, data, []]) == [[e, data]] && Blocks([e, [], data, []]) == [[e], [data]]
  {
    LineStep([], e);
    LineStep([e], data);
    LineStep([e, data], []);
    LineStep([e], []);
    LineStep([e, []], data);
    LineStep([e, [], data], []);
    NoBlocks();
    hide Blocks, Open;
    assert [] + [e] == [e] && [e] + [data] == [e, data] && [e, data] + [[]] == [e, data, []];
    assert [e] + [[]] == [e, []] && [e, []] + [data] == [e, [], data] && [e, [], data] + [[]] == [e, [], data, []];
    assert [] + [data] == [data] && [[e]] + [[data]] == [[e], [data]];
  }

  lemma NoBlocks()
    ensures Open([]) == [] && Blocks([]) == [] && FirstHalt([]) == None
  {
  }

  /** The lines event, data, blank dispatch the data; a blank line in between loses it. */
  lemma FrameMeans(data: Text)
    requires StartsWith(data, DataField())
    ensures FirstHalt(Blocks([EventHalt(), data, []])) == Some(DataValue(data))
    ensures FirstHalt(Blocks([EventHalt(), [], data, []])) == None
  {
    hide FirstHalt, Blocks, IsHalt, Payload, DataValue;
    var e := EventHalt();
    FrameFields(data);
    FrameBlocks(e, data);
    NoBlocks();
    HaltStep([], [e, data]);
    HaltStep([], [e]);
    HaltStep([[e]], [data]);
    assert [] + [[e, data]] == [[e, data]] && [] + [[e]] == [[e]] && [[e]] + [[data]] == [[e], [data]];
  }

  lemma NormalizeBehind(a: Text, b: Text)
    requires CR !in a
    ensures Normalize(a + b) == a + Normalize(b)
  {
    NormalizeKeeps(a);
    NormalizeAcrossCut(a, b);
  }

  lemma NormalizeEnds()
    ensures Normalize([CR]) == [LF] && Normalize([CR, LF]) == [LF] && Normalize([CR, LF, CR, LF]) == [LF, LF]
  {
    assert [CR, LF, CR, LF][2..] == [CR, LF] && [CR, LF][2..] == [];
    assert Normalize([CR, LF]) == [LF] + Normalize([]);
  }

  lemma BlankEnd()
    ensures Complete([LF]) == [[]]
  {
    SplitStep(LF, []);
    assert [LF] + [] == [LF];
  }

  lemma PiecesOfTwo(a: Text, b: Text)
    ensures Pieces([a]) == Normalize(a) && Pieces([a, b]) == Normalize(a) + Normalize(b) && Concat([a]) == a
  {
    PiecesStep([], a);
    PiecesStep([a], b);
    assert [] + [a] == [a] && [a] + [b] == [a, b];
  }

  /**
   * The condition is needed: a halt frame whose lines end in CR LF reaches the callback when it arrives whole, and is
   * lost when a chunk ends between the CR and the LF of its event line.
   */
  lemma CutInCrLfLosesHalt(data: Text)
    requires StartsWith(data, DataField()) && CR !in data && LF !in data
    ensures var first, second := EventHalt() + [CR], [LF] + data + [CR, LF, CR, LF];
      && !NoCutInCrLf([first, second])
      && Dispatched([first + second]) == Some(DataValue(data))
      && Dispatched([first, second]) == None
  {
    hide FirstHalt, Blocks, Complete, DataValue, Normalize;
    var e, ends := EventHalt(), [CR, LF, CR, LF];
    var first, second := e + [CR], [LF] + data + ends;
    FrameMeans(data);
    NormalizeEnds();
    BlankEnd();
    // cut
    PiecesOfTwo(first, second);
    NormalizeBehind(e, [CR]);
    NormalizeBehind([LF] + data, ends);
    assert Pieces([first, second]) == e + [LF] + ([] + [LF] + (data + [LF] + [LF]));
    LineThen(data, [LF]);
    LineThen([], data + [LF] + [LF]);
    LineThen(e, [] + [LF] + (data + [LF] + [LF]));
    assert Complete(Pieces([first, second])) == [e, [], data, []];
    // whole
    PiecesOfTwo(first + second, []);
    Rejoin(e, data, ends);
    assert Complete(e + [LF] + (data + [LF] + [LF])) == [e, data, []] by {
      LineThen(e, data + [LF] + [LF]);
    }
    assert [first, second][..1] == [first];
    PiecesOfTwo(first, []);
    assert CutsCrLf(Concat([first, second][..1]), [first, second][1]);
  }

  lemma Rejoin(e: Text, data: Text, ends: Text)
    requires CR !in e && CR !in data && Normalize(ends) == [LF, LF]
    ensures Normalize((e + [CR]) + ([LF] + data + ends)) == e + [LF] + (data + [LF] + [LF])
  {
    NormalizeBehind(e, [CR, LF] + (data + ends));
    NormalizeBehind(data, ends);
    assert ([CR, LF] + (data + ends))[2..] == data + ends;
    assert (e + [CR]) + ([LF] + data + ends) == e + ([CR, LF] + (data + ends));
    hide Normalize;
    assert e + ([LF] + (data + [LF, LF])) == e + [LF] + (data + [LF] + [LF]);
  }

  /**
   * And a cut can raise a halt the stream does not contain: a block that renames its event after its data dispatches
   * nothing, but its first half does when a chunk ends between the CR and the LF of the data line.
   */
  lemma CutInCrLfRaisesHalt(data: Text, name: Text)
    requires StartsWith(data, DataField()) && CR !in data && LF !in data
    requires StartsWith(name, EventField()) && CR !in name && LF !in name && EventName(name) != Halt()
    ensures var first, second := EventHalt() + [CR, LF] + data + [CR], [LF] + name + [CR, LF, CR, LF];
      && Dispatched([first + second]) == None
      && Dispatched([first, second]) == Some(DataValue(data))
  {
    hide FirstHalt, Blocks, Complete, DataValue, Pieces, EventName;
    var e := EventHalt();
    FrameMeans(data);
    RenamedBlock(data, name);
    RenamedCut(e, data, name);
    RenamedWhole(e, data, name);
    assert [e, data, []] + [name, []] == [e, data, [], name, []];
    HaltStays([e, data, []], [name, []]);
  }

  lemma RenamedCut(e: Text, data: Text, name: Text)
    requires CR !in e && LF !in e && CR !in data && LF !in data && CR !in name && LF !in name
    ensures Complete(Pieces([e + [CR, LF] + data + [CR], [LF] + name + [CR, LF, CR, LF]])) == [e, data, [], name, []]
  {
    hide Complete, Normalize;
    NormalizeEnds();
    BlankEnd();
    PiecesOfTwo(e + [CR, LF] + data + [CR], [LF] + name + [CR, LF, CR, LF]);
    NormalizeTwoLines(e, data, [CR]);
    NormalizeBehind([LF] + name, [CR, LF, CR, LF]);
    assert e + [LF] + data + [LF] + ([LF] + name + [LF, LF]) ==
           e + [LF] + (data + [LF] + ([] + [LF] + (name + [LF] + [LF])));
    LineThen(name, [LF]);
    LineThen([], name + [LF] + [LF]);
    LineThen(data, [] + [LF] + (name + [LF] + [LF]));
    LineThen(e, data + [LF] + ([] + [LF] + (name + [LF] + [LF])));
  }

  lemma RenamedWhole(e: Text, data: Text, name: Text)
    requires CR !in e && LF !in e && CR !in data && LF !in data && CR !in name && LF !in name
    ensures Complete(Pieces([(e + [CR, LF] + data + [CR]) + ([LF] + name + [CR, LF, CR, LF])])) == [e, data, name, []]
  {
    hide Complete, Normalize;
    var ends := [CR, LF, CR, LF];
    var whole := (e + [CR, LF] + data + [CR]) + ([LF] + name + ends);
    NormalizeEnds();
    BlankEnd();
    PiecesOfTwo(whole, []);
    NormalizeBehind(name, ends);
    NormalizeTwoLines(e, data, [CR, LF] + (name + ends));
    NormalizeCrLf(name + ends);
    assert whole == e + [CR, LF] + data + ([CR, LF] + (name + ends));
    assert e + [LF] + data + ([LF] + (name + [LF, LF])) == e + [LF] + (data + [LF] + (name + [LF] + [LF]));
    LineThen(name, [LF]);
    LineThen(data, name + [LF] + [LF]);
    LineThen(e, data + [LF] + (name + [LF] + [LF]));
  }

  lemma NormalizeCrLf(s: Text)
    ensures Normalize([CR, LF] + s) == [LF] + Normalize(s)
  {
    assert ([CR, LF] + s)[2..] == s;
  }

  lemma NormalizeTwoLines(a: Text, b: Text, rest: Text)
    requires CR !in a && CR !in b
    ensures Normalize(a + [CR, LF] + b + rest) == a + [LF] + b + Normalize(rest)
  {
    hide Normalize;
    NormalizeBehind(b, rest);
    NormalizeCrLf(b + rest);
    NormalizeBehind(a, [CR, LF] + (b + rest));
    assert a + [CR, LF] + b + rest == a + ([CR, LF] + (b + rest));
    assert a + ([LF] + (b + Normalize(rest))) == a + [LF] + b + Normalize(rest);
  }

  lemma RenamedBlock(data: Text, name: Text)
    requires StartsWith(data, DataField()) && StartsWith(name, EventField()) && EventName(name) != Halt()
    ensures FirstHalt(Blocks([EventHalt(), data, name, []])) == None
  {
    hide FirstHalt, Blocks, Open, EventOf, DataOf, EventName;
    var e := EventHalt();
    NoBlocks();
    LineStep([], e);
    LineStep([e], data);
    LineStep([e, data], name);
    LineStep([e, data, name], []);
    assert [] + [e] == [e] && [e] + [data] == [e, data] && [e, data] + [name] == [e, data, name];
    assert [e, data, name] + [[]] == [e, data, name, []];
    FieldStep([e, data], name);
    HaltStep([], [e, data, name]);
  }

  // ----- what a line says

  /** An event line names a halt with any white space around the word, and one naming nothing names a message. */
  lemma EventLineNames(before: Text, after: Text)
    requires AllSpace(before) && AllSpace(after)
    ensures EventName(EventField() + (before + Halt() + after)) == Halt()
    ensures EventName(EventField() + before) == Message()
  {
    hide IsSpace;
    NotSpace();
    TrimPadded(before, Halt(), after);
    TrimSpace(before);
    var line := EventField() + (before + Halt() + after);
    assert line[|EventField()|..] == before + Halt() + after;
    assert (EventField() + before)[|EventField()|..] == before;
  }

  lemma NotSpace()
    ensures !IsSpace(Halt()[0]) && !IsSpace(Halt()[|Halt()| - 1])
  {
  }

  /** A data line holds what follows the colon, without one leading space. */
  lemma DataLineHolds(value: Text)
    ensures value == [] || value[0] != SPACE ==> DataValue(DataField() + value) == value
    ensures DataValue(DataField() + ([SPACE] + value)) == value
  {
    assert (DataField() + value)[|DataField()|..] == value;
    assert (DataField() + ([SPACE] + value))[|DataField()|..] == [SPACE] + value;
    assert ([SPACE] + value)[1..] == value;
  }

  /** A comment, or any line that is neither field, changes nothing in its block. */
  lemma {:induction false} OtherLineIgnored(before: seq<Text>, line: Text, after: seq<Text>)
    requires !StartsWith(line, EventField()) && !StartsWith(line, DataField())
    ensures EventOf(before + [line] + after) == EventOf(before + after)
    ensures DataOf(before + [line] + after) == DataOf(before + after)
    decreases |after|
  {
    hide EventOf, DataOf, EventName, DataValue;
    if after == [] {
      FieldStep(before, line);
      assert before + [line] + after == before + [line] && before + after == before;
    } else {
      var n := |after| - 1;
      OtherLineIgnored(before, line, after[..n]);
      FieldStep(before + [line] + after[..n], after[n]);
      FieldStep(before + after[..n], after[n]);
      assert before + [line] + after == (before + [line] + after[..n]) + [after[n]];
      assert before + after == (before + after[..n]) + [after[n]];
    }
  }

  /** The values of several data lines are dispatched one to a line. */
  lemma PayloadStep(block: seq<Text>, line: Text)
    requires StartsWith(line, DataField())
    ensures Payload(block + [line]) ==
            if DataOf(block) == [] then DataValue(line) else Payload(block) + [LF] + DataValue(line)
  {
    hide DataValue;
    FieldStep(block, line);
    JoinStep(DataOf(block), DataValue(line), LF);
    assert [] + [DataValue(line)] == [DataValue(line)];
  }

  // ----- the frame the server sends

  /** The two fields, the payload put into the second, and a blank line, each ended by LF. */
  function ServerFrame(payload: Text): Text {
    Ascii("event: halt") + [10] + (Ascii("data: ") + payload + [10] + [10])
  }

  lemma ServerFrameIs(payload: Text)
    ensures ServerFrame(payload) ==
            EventField() + ([SPACE] + Halt()) + [LF] + (DataField() + ([SPACE] + payload) + [LF] + [LF])
  {
    FieldSpelling();
    assert Ascii("data: ") + payload == DataField() + ([SPACE] + payload);
  }

  lemma FieldSpelling()
    ensures Ascii("event: halt") == EventField() + ([SPACE] + Halt()) && Ascii("data: ") == DataField() + [SPACE]
  {
  }

  lemma ServerLines(payload: Text)
    requires LF !in payload
    ensures Complete(ServerFrame(payload)) == [EventField() + ([SPACE] + Halt()), DataField() + ([SPACE] + payload), []]
  {
    hide Complete, ServerFrame;
    ServerFrameIs(payload);
    BlankEnd();
    LineThen(DataField() + ([SPACE] + payload), [LF]);
    LineThen(EventField() + ([SPACE] + Halt()), DataField() + ([SPACE] + payload) + [LF] + [LF]);
  }

  lemma ServerBlock(payload: Text)
    ensures var e, d := EventField() + ([SPACE] + Halt()), DataField() + ([SPACE] + payload);
      FirstHalt(Blocks([e, d, []])) == Some(payload)
  {
    hide FirstHalt, Blocks, Open, EventOf, DataOf, EventName, DataValue;
    var e, d := EventField() + ([SPACE] + Halt()), DataField() + ([SPACE] + payload);
    EventLineNames([SPACE], []);
    assert [SPACE] + Halt() + [] == [SPACE] + Halt();
    DataLineHolds(payload);
    OneField(e);
    OneField(d);
    EmptyBlock();
    NoBlocks();
    FieldStep([], e);
    FieldStep([e], d);
    PayloadStep([e], d);
    FrameBlocks(e, d);
    HaltStep([], [e, d]);
    assert [] + [e] == [e] && [e] + [d] == [e, d] && [] + [[e, d]] == [[e, d]];
  }

  lemma {:induction false} NoCrNoCut(chunks: seq<Text>)
    requires CR !in Concat(chunks)
    ensures NoCutInCrLf(chunks)
  {
    hide NoCutInCrLf, CutsCrLf;
    NoCutStep(chunks);
    if chunks != [] {
      var n := |chunks| - 1;
      ConcatStep(chunks);
      assert forall c :: c in Concat(chunks[..n]) ==> c in Concat(chunks);
      NoCrNoCut(chunks[..n]);
      EndsWithoutCr(Concat(chunks[..n]), chunks[n]);
    }
  }

  lemma EndsWithoutCr(before: Text, after: Text)
    requires CR !in before
    ensures !CutsCrLf(before, after)
  {
  }

  /** However the frame is cut into chunks, its payload is dispatched. */
  lemma ServerFrameDispatched(chunks: seq<Text>, payload: Text)
    requires CR !in payload && LF !in payload && Concat(chunks) == ServerFrame(payload)
    ensures Dispatched(chunks) == Some(payload)
  {
    hide Dispatched, Complete, FirstHalt, Blocks, Normalize, HarmlessCuts, NoCutInCrLf, Concat, ServerFrame;
    ServerFrameIs(payload);
    NoCrNoCut(chunks);
    NoCutIsHarmless(chunks);
    DispatchIsOnePass(chunks);
    NormalizeKeeps(ServerFrame(payload));
    ServerLines(payload);
    ServerBlock(payload);
  }

  // ----- what is read, and what is called

  /** The chunks read are all the reads before the first that is no chunk or finds the reader stopped. */
  lemma {:induction false} ChunksAreThePrefix(input: seq<Read>, stopped: bool)
    ensures var m := |ChunksOf(input, stopped)|;
      && m <= |input| && (forall k :: 0 <= k < m ==>
            input[k].Chunk? && !input[k].stop && !stopped && ChunksOf(input, stopped)[k] == input[k].text)
      && (m < |input| ==> stopped || input[m].stop || !input[m].Chunk?)
  {
    if input != [] && input[0].Chunk? && !stopped && !input[0].stop {
      ChunksAreThePrefix(input[1..], false);
      var rest := ChunksOf(input[1..], false);
      assert ChunksOf(input, stopped) == [input[0].text] + rest;
      assert forall k :: 0 < k < |input| ==> input[k] == input[1..][k - 1];
    }
  }

  /** One call for a dispatch, with the reason found in it or the generic one, and none otherwise. */
  lemma CallsMade(raw: Text, reason: Text, reasonIn: Text -> Option<Text>)
    ensures Calls(None, reasonIn) == []
    ensures reasonIn(raw) == Some(reason) ==> Calls(Some(raw), reasonIn) == [reason]
    ensures reasonIn(raw) == None ==> Calls(Some(raw), reasonIn) == [Ascii("remote halt")]
  {
    assert Ascii("remote halt") == GenericReason();
  }
}
