/** Rotation of a log by size (src/guardrails/mod.rs) before each append (src/events/mod.rs). */
module LogRotation {
  import opened Wrappers
  import opened Text

  type Bytes = seq<bv8>

  /** The active file, if it exists, and the numbered backups. */
  datatype Log = Log(active: Option<Bytes>, backups: map<nat, Bytes>)

  /** Rename backup i to i + 1, over whatever is there. */
  function Move(backups: map<nat, Bytes>, i: nat): map<nat, Bytes> {
    if i in backups then (backups - {i})[i + 1 := backups[i]] else backups
  }

  /** The renames of backups i, i - 1, down to 1. */
  function Shift(backups: map<nat, Bytes>, i: nat): map<nat, Bytes>
    decreases i
  {
    if i == 0 then backups else Shift(Move(backups, i), i - 1)
  }

  predicate MustRotate(log: Log, maxBytes: nat) {
    log.active.Some? && |log.active.value| >= maxBytes
  }

  function Rotate(log: Log, maxBytes: nat, maxFiles: nat): Log {
    if !MustRotate(log, maxBytes) then log
    else if maxFiles == 0 then log.(active := Some([]))
    else Log(Some([]), Shift(log.backups, maxFiles - 1)[1 := log.active.value])
  }

  function Append(log: Log, line: Bytes): Log {
    log.(active := Some((if log.active.Some? then log.active.value else []) + line))
  }

  class LogFile {
    var active: Option<Bytes>
    var backups: map<nat, Bytes>

    constructor ()
      ensures Contents() == Log(None, map[])
    {
      active, backups := None, map[];
    }

    function Contents(): Log
      reads this
    {
      Log(active, backups)
    }

    /** `rotate_if_needed`. */
    method RotateIfNeeded(maxBytes: nat, maxFiles: nat) returns (rotated: bool)
      modifies this
      ensures rotated == MustRotate(old(Contents()), maxBytes)
      ensures Contents() == Rotate(old(Contents()), maxBytes, maxFiles)
    {
      if active.None? {
        return false;
      }
      if |active.value| < maxBytes {
        return false;
      }
      if maxFiles == 0 {
        active := Some([]);
        return true;
      }
      var i := maxFiles - 1;
      while i > 0
        invariant 0 <= i < maxFiles
        invariant active == old(active)
        invariant Shift(backups, i) == Shift(old(backups), maxFiles - 1)
      {
        if i in backups {
          backups := (backups - {i})[i + 1 := backups[i]];
        }
        i := i - 1;
      }
      backups := backups[1 := active.value];
      active := Some([]);
      rotated := true;
    }

    /** Recording an event: rotate, then append its line. */
    method Record(line: Bytes, maxBytes: nat, maxFiles: nat)
      modifies this
      ensures Contents() == Append(Rotate(old(Contents()), maxBytes, maxFiles), line)
    {
      var _ := RotateIfNeeded(maxBytes, maxFiles);
      active := Some((if active.Some? then active.value else []) + line);
    }
  }

  /** The log after these lines have been recorded, starting without any file. */
  function Run(lines: seq<Bytes>, maxBytes: nat, maxFiles: nat): Log {
    if lines == [] then Log(None, map[])
    else Append(Rotate(Run(lines[..|lines| - 1], maxBytes, maxFiles), maxBytes, maxFiles), lines[|lines| - 1])
  }

  // ---------------------------------------------------------------------------------------
  // A log that loses nothing

  /** The log with every file ever closed, oldest first. */
  datatype Archive = Archive(closed: seq<Bytes>, active: Bytes)

  function ArchiveOf(lines: seq<Bytes>, maxBytes: nat): Archive
    requires lines != []
  {
    var line := lines[|lines| - 1];
    if |lines| == 1 then Archive([], line)
    else
      var a := ArchiveOf(lines[..|lines| - 1], maxBytes);
      if |a.active| >= maxBytes then Archive(a.closed + [a.active], line)
      else Archive(a.closed, a.active + line)
  }

  lemma {:induction false} ArchiveKeepsAll(lines: seq<Bytes>, maxBytes: nat)
    requires lines != []
    ensures var a := ArchiveOf(lines, maxBytes); Concat(a.closed) + a.active == Concat(lines)
  {
    if |lines| > 1 {
      var init := lines[..|lines| - 1];
      ArchiveKeepsAll(init, maxBytes);
      var a := ArchiveOf(init, maxBytes);
      var line := lines[|lines| - 1];
      if |a.active| >= maxBytes {
        assert (a.closed + [a.active])[..|a.closed|] == a.closed;
      } else {
        assert Concat(a.closed) + (a.active + line) == Concat(a.closed) + a.active + line;
      }
    } else {
      assert lines[..0] == [];
      assert Concat([]) + lines[0] == lines[0];
    }
  }

  /** Files numbered from 1, the newest first. */
  function Numbered(newest: seq<Bytes>): map<nat, Bytes> {
    map j: nat | j <= |newest| && IsNumber(j, |newest|) :: newest[j - 1]
  }

  predicate IsNumber(j: nat, count: nat) { 1 <= j <= count }

  function Reverse(s: seq<Bytes>): (r: seq<Bytes>)
    ensures |r| == |s|
    ensures forall i :: 0 <= i < |s| ==> r[i] == s[|s| - 1 - i]
  {
    seq(|s|, i requires 0 <= i < |s| => s[|s| - 1 - i])
  }

  function Last(s: seq<Bytes>, n: nat): seq<Bytes> {
    if |s| <= n then s else s[|s| - n..]
  }

  /** What the renames leave at each number. */
  lemma {:induction false} ShiftAt(b: map<nat, Bytes>, i: nat, j: nat)
    ensures var s := Shift(b, i);
            if j == 0 || j > i + 1 || i == 0 then (j in s <==> j in b) && (j in b ==> s[j] == b[j])
            else if j == 1 then j !in s
            else if j - 1 in b then j in s && s[j] == b[j - 1]
            else (j in s <==> j == i + 1 && j in b) && (j in s ==> s[j] == b[j])
    decreases i
  {
    if i == 0 {
    } else {
      ShiftAt(Move(b, i), i - 1, j);
    }
  }

  /** On files numbered without gaps a rotation puts the active file in front and drops what
      exceeds the limit. */
  lemma ShiftNumbered(newest: seq<Bytes>, active: Bytes, maxFiles: nat)
    requires 1 <= maxFiles && |newest| <= maxFiles
    ensures var all := [active] + newest;
            Shift(Numbered(newest), maxFiles - 1)[1 := active]
            == Numbered(if |all| <= maxFiles then all else all[..maxFiles])
  {
    var b := Numbered(newest);
    var all := [active] + newest;
    var kept := if |all| <= maxFiles then all else all[..maxFiles];
    var after := Shift(b, maxFiles - 1)[1 := active];
    forall j: nat
      ensures j in after <==> j in Numbered(kept)
      ensures j in after ==> after[j] == Numbered(kept)[j]
    {
      ShiftAt(b, maxFiles - 1, j);
    }
  }

  lemma LastReversed(closed: seq<Bytes>, active: Bytes, maxFiles: nat)
    requires maxFiles >= 1
    ensures var all := [active] + Reverse(Last(closed, maxFiles));
            Reverse(Last(closed + [active], maxFiles)) == if |all| <= maxFiles then all else all[..maxFiles]
  {
  }

  /** The files on disk are always the active file and the last maxFiles closed ones of the log
      that loses nothing. */
  lemma {:induction false} RunKeepsTheLastFiles(lines: seq<Bytes>, maxBytes: nat, maxFiles: nat)
    requires lines != []
    ensures var a := ArchiveOf(lines, maxBytes);
            Run(lines, maxBytes, maxFiles) == Log(Some(a.active), Numbered(Reverse(Last(a.closed, maxFiles))))
  {
    var init, line := lines[..|lines| - 1], lines[|lines| - 1];
    if |lines| == 1 {
      assert init == [];
      assert [] + line == line;
      assert Numbered(Reverse(Last([], maxFiles))) == map[];
    } else {
      RunKeepsTheLastFiles(init, maxBytes, maxFiles);
      var a := ArchiveOf(init, maxBytes);
      if |a.active| >= maxBytes {
        assert [] + line == line;
        if maxFiles > 0 {
          ShiftNumbered(Reverse(Last(a.closed, maxFiles)), a.active, maxFiles);
          LastReversed(a.closed, a.active, maxFiles);
        } else {
          assert Last(a.closed, 0) == [] && Last(a.closed + [a.active], 0) == [];
        }
      }
    }
  }

  lemma {:induction false} LastIsSuffix(closed: seq<Bytes>, n: nat)
    ensures EndsWith(Concat(closed), Concat(Last(closed, n)))
  {
    if |closed| <= n {
    } else {
      var init, last := closed[..|closed| - 1], closed[|closed| - 1];
      if n == 0 {
        assert Last(closed, 0) == [];
      } else {
        LastIsSuffix(init, n - 1);
        var kept := Last(closed, n);
        assert kept[..|kept| - 1] == Last(init, n - 1);
        assert kept[|kept| - 1] == last;
        SuffixThenMore(Concat(init), Concat(Last(init, n - 1)), last);
      }
    }
  }

  lemma SuffixThenMore(whole: Bytes, kept: Bytes, active: Bytes)
    requires EndsWith(whole, kept)
    ensures EndsWith(whole + active, kept + active)
  {
  }

  /** The main result: the backups, oldest first, and the active file are together the end of
      everything ever recorded; the backups are numbered without gaps and at most maxFiles; and all
      is kept while no more files than that have been closed. */
  lemma KeptFilesAreSuffix(lines: seq<Bytes>, maxBytes: nat, maxFiles: nat)
    requires lines != []
    ensures var log := Run(lines, maxBytes, maxFiles);
            var closed := ArchiveOf(lines, maxBytes).closed;
            var kept := Last(closed, maxFiles);
            && log.active.Some? && log.backups == Numbered(Reverse(kept)) && |kept| <= maxFiles
            && EndsWith(Concat(lines), Concat(kept) + log.active.value)
            && (|closed| <= maxFiles ==> Concat(kept) + log.active.value == Concat(lines))
  {
    RunKeepsTheLastFiles(lines, maxBytes, maxFiles);
    ArchiveKeepsAll(lines, maxBytes);
    var a := ArchiveOf(lines, maxBytes);
    LastIsSuffix(a.closed, maxFiles);
    SuffixThenMore(Concat(a.closed), Concat(Last(a.closed, maxFiles)), a.active);
  }

  /** With a positive limit an append never finds the active file at the limit. */
  lemma AppendFindsRoom(lines: seq<Bytes>, maxBytes: nat, maxFiles: nat)
    requires maxBytes > 0
    ensures var log := Rotate(Run(lines, maxBytes, maxFiles), maxBytes, maxFiles);
            log.active.Some? ==> |log.active.value| < maxBytes
    ensures lines != [] ==> Rotate(Run(lines, maxBytes, maxFiles), maxBytes, maxFiles).active.Some?
  {
  }
}
