// A part file and the target that replaces it: what the code does to them, effect
// by effect, so that a run can be cut off between any two.
module PartDisk {
  import opened Bytes

  // ---------------------------------------------------------------- effects

  datatype Files = Files(part: Option<seq<byte>>, target: Option<seq<byte>>)

  /** One effect on the disk; a run may be cut off between any two of them. */
  datatype Op = Remove | Open(truncate: bool) | Append(b: byte) | Overwrite(content: seq<byte>) | Publish

  function Apply(f: Files, op: Op): Files {
    match op
    case Remove => f.(part := None)
    case Open(truncate) => f.(part := if truncate || f.part.None? then Some([]) else f.part)
    case Append(b) => f.(part := Some(f.part.GetOr([]) + [b]))
    case Overwrite(content) => f.(part := Some(content))
    case Publish => Files(None, f.part)
  }

  function ApplyAll(f: Files, ops: seq<Op>): Files
    decreases |ops|
  {
    if ops == [] then f else Apply(ApplyAll(f, ops[..|ops| - 1]), ops[|ops| - 1])
  }

  function Appends(s: seq<byte>): (ops: seq<Op>)
    ensures |ops| == |s|
  {
    seq(|s|, i requires 0 <= i < |s| => Append(s[i]))
  }

  function Overwrites(contents: seq<seq<byte>>): (ops: seq<Op>)
    ensures |ops| == |contents|
  {
    seq(|contents|, i requires 0 <= i < |contents| => Overwrite(contents[i]))
  }

  lemma ApplyAllConcat(f: Files, a: seq<Op>, b: seq<Op>)
    ensures ApplyAll(f, a + b) == ApplyAll(ApplyAll(f, a), b)
    decreases |b|
  {
    if b == [] {
      assert a + b == a;
    } else {
      var n := |b| - 1;
      assert (a + b)[..|a + b| - 1] == a + b[..n];
      ApplyAllConcat(f, a, b[..n]);
    }
  }

  lemma ApplyOne(f: Files, op: Op)
    ensures ApplyAll(f, [op]) == Apply(f, op)
  {
  }

  // ---------------------------------------------------------------- effects in bulk

  lemma {:induction false} AppendAll(f: Files, s: seq<byte>)
    requires f.part.Some?
    ensures ApplyAll(f, Appends(s)) == Files(Some(f.part.value + s), f.target)
    decreases |s|
  {
    if s == [] {
      assert f.part.value + s == f.part.value;
    } else {
      var n := |s| - 1;
      assert Appends(s)[..n] == Appends(s[..n]);
      AppendAll(f, s[..n]);
      assert f.part.value + s[..n] + [s[n]] == f.part.value + s;
    }
  }

  lemma {:induction false} OverwriteAll(f: Files, contents: seq<seq<byte>>)
    requires f.part.Some?
    ensures ApplyAll(f, Overwrites(contents))
         == Files(Some(if contents == [] then f.part.value else contents[|contents| - 1]), f.target)
    decreases |contents|
  {
    if contents != [] {
      var n := |contents| - 1;
      assert Overwrites(contents)[..n] == Overwrites(contents[..n]);
      OverwriteAll(f, contents[..n]);
    }
  }

  lemma {:induction false} NoPublishNoChange(f: Files, ops: seq<Op>)
    requires Publish !in ops
    ensures ApplyAll(f, ops).target == f.target
    decreases |ops|
  {
    if ops != [] {
      NoPublishNoChange(f, ops[..|ops| - 1]);
    }
  }

  lemma NoEffects(f: Files)
    ensures ApplyAll(f, []) == f
  {
  }

  lemma RemoveLast(g: Files)
    ensures ApplyAll(g, [Remove]) == Files(None, g.target)
  {
  }

  lemma AppendsNothing(s: seq<byte>, i: nat)
    requires i <= |s|
    ensures Appends(s[i..i]) == []
  {
  }

  lemma AppendsSplit(s: seq<byte>, from: nat, mid: nat, to: nat)
    requires from <= mid <= to <= |s|
    ensures Appends(s[from..to]) == Appends(s[from..mid]) + Appends(s[mid..to])
  {
  }

  /** Size and presence of a regular file. */
  function FileSize(file: Option<seq<byte>>): (bool, nat) {
    (file.Some?, |file.GetOr([])|)
  }

  // ---------------------------------------------------------------- the disk

  /** The part and the target of one entry, and the effects so far. */
  class Disk {
    var part: Option<seq<byte>>
    var target: Option<seq<byte>>
    ghost var log: seq<Op>

    function State(): Files
      reads this
    {
      Files(part, target)
    }

    /** The effects since `was`, a state with log `from`, led to the present state. */
    ghost predicate Follows(was: Files, from: seq<Op>, ops: seq<Op>)
      reads this
    {
      log == from + ops && State() == ApplyAll(was, ops)
    }

    method RemovePart()
      modifies this
      ensures Follows(old(State()), old(log), [Remove])
    {
      ApplyOne(State(), Remove);
      part := None;
      log := log + [Remove];
    }

    method OpenPart(truncate: bool)
      modifies this
      ensures Follows(old(State()), old(log), [Open(truncate)])
    {
      ApplyOne(State(), Open(truncate));
      if truncate || part.None? {
        part := Some([]);
      }
      log := log + [Open(truncate)];
    }

    /** replace_file(part, target) */
    method PublishFile()
      modifies this
      ensures Follows(old(State()), old(log), [Publish])
    {
      ApplyOne(State(), Publish);
      target := part;
      part := None;
      log := log + [Publish];
    }

    method OverwritePart(content: seq<byte>)
      modifies this
      ensures Follows(old(State()), old(log), [Overwrite(content)])
    {
      ApplyOne(State(), Overwrite(content));
      part := Some(content);
      log := log + [Overwrite(content)];
    }

    /** write_file: every byte that reaches the file is an effect of its own. */
    method WriteFile(buf: seq<byte>)
      modifies this
      ensures Follows(old(State()), old(log), Appends(buf))
    {
      ghost var was := State();
      assert Appends(buf)[..0] == [];
      for i := 0 to |buf|
        invariant Follows(was, old(log), Appends(buf)[..i])
      {
        part := Some(part.GetOr([]) + [buf[i]]);
        log := log + [Append(buf[i])];
        assert Appends(buf)[..i + 1] == Appends(buf)[..i] + [Append(buf[i])];
        assert Appends(buf)[..i + 1][..i] == Appends(buf)[..i];
      }
      assert Appends(buf)[..|buf|] == Appends(buf);
    }
  }

  /** Effects b after effects a are the effects a + b. */
  lemma Chain(disk: Disk, was: Files, from: seq<Op>, a: seq<Op>, mid: Files, midLog: seq<Op>, b: seq<Op>)
    requires midLog == from + a && mid == ApplyAll(was, a) && disk.Follows(mid, midLog, b)
    ensures disk.Follows(was, from, a + b)
  {
    ApplyAllConcat(was, a, b);
    assert from + (a + b) == from + a + b;
  }

  lemma FollowsNothing(disk: Disk)
    ensures disk.Follows(disk.State(), disk.log, [])
  {
  }
}
