/** The hex editor's buffer with its undo and redo logs, as a timeline of versions. */
module HexEdit {
  import opened Bytes

  // ---- what editing means ----

  /** All versions that undo and redo can reach, oldest first, and the one now shown. */
  datatype Timeline = Timeline(versions: seq<seq<byte>>, at: nat)

  datatype Op = Apply(offset: nat, newValue: byte) | Undo | Redo

  predicate Within(t: Timeline) { t.at < |t.versions| }

  function Shown(t: Timeline): seq<byte> requires Within(t) { t.versions[t.at] }

  function Loaded(data: seq<byte>): Timeline { Timeline([data], 0) }

  /** A real change drops the later versions and adds one; undo and redo only move. */
  function Step(t: Timeline, op: Op): (t': Timeline)
    requires Within(t)
    ensures Within(t')
  {
    match op
    case Apply(o, v) =>
      if o < |Shown(t)| && Shown(t)[o] != v then Timeline(t.versions[..t.at + 1] + [Shown(t)[o := v]], t.at + 1) else t
    case Undo => if t.at == 0 then t else t.(at := t.at - 1)
    case Redo => if t.at + 1 == |t.versions| then t else t.(at := t.at + 1)
  }

  function Run(t: Timeline, ops: seq<Op>): (t': Timeline)
    requires Within(t)
    ensures Within(t')
    decreases |ops|
  {
    if ops == [] then t else Run(Step(t, ops[0]), ops[1..])
  }

  function Repeat(op: Op, n: nat): (ops: seq<Op>)
    ensures |ops| == n && forall k :: 0 <= k < n ==> ops[k] == op
  {
    seq(n, _ => op)
  }

  predicate Moves(ops: seq<Op>) { forall k :: 0 <= k < |ops| ==> !ops[k].Apply? }

  lemma {:induction false} OldestStays(t: Timeline, ops: seq<Op>)
    requires Within(t)
    ensures Run(t, ops).versions[0] == t.versions[0]
    decreases |ops|
  {
    if ops != [] { OldestStays(Step(t, ops[0]), ops[1..]); }
  }

  lemma {:induction false} MovesKeepVersions(t: Timeline, ops: seq<Op>)
    requires Within(t) && Moves(ops)
    ensures Run(t, ops).versions == t.versions
    decreases |ops|
  {
    if ops != [] { MovesKeepVersions(Step(t, ops[0]), ops[1..]); }
  }

  lemma {:induction false} Repeated(t: Timeline, op: Op, n: nat)
    requires Within(t) && !op.Apply?
    ensures op.Undo? && t.at <= n ==> Run(t, Repeat(op, n)).at == 0
    ensures op.Redo? && |t.versions| - 1 - t.at <= n ==> Run(t, Repeat(op, n)).at == |t.versions| - 1
    decreases n
  {
    if n > 0 {
      assert Repeat(op, n)[1..] == Repeat(op, n - 1);
      Repeated(Step(t, op), op, n - 1);
    }
  }

  /** After any run from a loaded buffer, undoing everything shows that buffer again. */
  lemma UndoAll(data: seq<byte>, ops: seq<Op>)
    ensures var t := Run(Loaded(data), ops); Shown(Run(t, Repeat(Undo, t.at))) == data
  {
    hide Run, Step;
    var t := Run(Loaded(data), ops);
    OldestStays(Loaded(data), ops);
    OldestStays(t, Repeat(Undo, t.at));
    Repeated(t, Undo, t.at);
  }

  /** However one moves about after a change that took effect, redoing everything shows its outcome. */
  lemma RedoAll(t: Timeline, o: nat, v: byte, moves: seq<Op>)
    requires Within(t) && o < |Shown(t)| && Shown(t)[o] != v && Moves(moves)
    ensures var t' := Run(Step(t, Apply(o, v)), moves);
            Shown(Run(t', Repeat(Redo, |t'.versions| - 1 - t'.at))) == Shown(t)[o := v]
  {
    hide Run;
    var edited := Step(t, Apply(o, v));
    var t' := Run(edited, moves);
    MovesKeepVersions(edited, moves);
    MovesKeepVersions(t', Repeat(Redo, |t'.versions| - 1 - t'.at));
    Repeated(t', Redo, |t'.versions| - 1 - t'.at);
  }

  // ---- the logs ----

  datatype Edit = Edit(offset: nat, oldValue: byte, newValue: byte)

  /** `e` leads from version `v` to version `w`, and back. */
  predicate Links(e: Edit, v: seq<byte>, w: seq<byte>) {
    && e.offset < |v| && v[e.offset] == e.oldValue != e.newValue
    && w == v[e.offset := e.newValue]
  }

  /** The two stacks, whose tops are their last elements, are the steps of the timeline on either side. */
  ghost predicate Logs(undo: seq<Edit>, redo: seq<Edit>, t: Timeline) {
    && Within(t) && |undo| == t.at && |redo| == |t.versions| - 1 - t.at
    && (forall k :: 0 <= k < |undo| ==> Links(undo[k], t.versions[k], t.versions[k + 1]))
    && (forall k :: 0 <= k < |redo| ==>
        Links(redo[k], t.versions[|t.versions| - 2 - k], t.versions[|t.versions| - 1 - k]))
  }

  /** Any byte in which a version differs from the loaded one is marked. */
  ghost predicate Covered(t: Timeline, modified: set<nat>) {
    && Within(t)
    && (forall k :: 0 <= k < |t.versions| ==> |t.versions[k]| == |t.versions[0]|)
    && (forall k, i :: 0 <= k < |t.versions| && 0 <= i < |t.versions[0]| && t.versions[k][i] != t.versions[0][i] ==>
        i in modified)
  }

  class Editor {
    var data: seq<byte>
    var modified: set<nat>
    var undo: seq<Edit>
    var redo: seq<Edit>
    ghost var timeline: Timeline

    ghost predicate Valid()
      reads this
    {
      && Logs(undo, redo, timeline) && Covered(timeline, modified)
      && data == Shown(timeline)
      && (forall e :: e in undo || e in redo ==> e.offset in modified)
    }

    /** After any run from `buffer`: what differs from it is marked, and every logged offset is in bounds. */
    lemma Marked(buffer: seq<byte>, ops: seq<Op>)
      requires Valid() && timeline == Run(Loaded(buffer), ops)
      ensures |data| == |buffer| && forall i :: 0 <= i < |data| && data[i] != buffer[i] ==> i in modified
      ensures forall k :: 0 <= k < |undo| ==> undo[k].offset < |data|
      ensures forall k :: 0 <= k < |redo| ==> redo[k].offset < |data|
    {
      OldestStays(Loaded(buffer), ops);
      forall k | 0 <= k < |undo| ensures undo[k].offset < |data| {
        assert Links(undo[k], timeline.versions[k], timeline.versions[k + 1]);
      }
      forall k | 0 <= k < |redo| ensures redo[k].offset < |data| {
        var n := |timeline.versions|;
        assert Links(redo[k], timeline.versions[n - 2 - k], timeline.versions[n - 1 - k]);
      }
    }

    constructor (buffer: seq<byte>)
      ensures Valid() && timeline == Loaded(buffer)
    {
      data, modified, undo, redo := buffer, {}, [], [];
      timeline := Loaded(buffer);
    }

    method ApplyEdit(offset: nat, newValue: byte)
      requires Valid()
      modifies this
      ensures Valid() && timeline == Step(old(timeline), Apply(offset, newValue))
      ensures modified == old(modified) + if data != old(data) then {offset} else {}
    {
      if offset < |data| {
        var oldValue := data[offset];
        if oldValue != newValue {
          undo := undo + [Edit(offset, oldValue, newValue)];
          redo := [];
          data := data[offset := newValue];
          modified := modified + {offset};
          timeline := Step(timeline, Apply(offset, newValue));
        }
      }
    }

    /** The mark of the byte is never removed, for no logged edit leaves its byte as it was. */
    method UndoEdit()
      requires Valid()
      modifies this
      ensures Valid() && timeline == Step(old(timeline), Undo)
      ensures modified == old(modified)
    {
      if undo != [] {
        var edit := undo[|undo| - 1];
        undo := undo[..|undo| - 1];
        data := data[edit.offset := edit.oldValue];
        modified := if edit.oldValue == edit.newValue then modified - {edit.offset} else modified;
        redo := redo + [edit];
        timeline := Step(timeline, Undo);
      }
    }

    method RedoEdit()
      requires Valid()
      modifies this
      ensures Valid() && timeline == Step(old(timeline), Redo)
      ensures modified == old(modified)
    {
      if redo != [] {
        var edit := redo[|redo| - 1];
        redo := redo[..|redo| - 1];
        data := data[edit.offset := edit.newValue];
        modified := modified + {edit.offset};
        undo := undo + [edit];
        timeline := Step(timeline, Redo);
      }
    }
  }
}
