/** Resolving a path inside a container for copying (src/runtime/cp.rs). */
module CopyPath {
  import opened Wrappers
  import opened Text

  datatype Component = Normal(name: string) | ParentDir | CurDir

  type Path = seq<string>

  datatype CopyError = EscapesRootfs

  /** `Path::components` of a relative path: empty pieces and inner dots do not count. */
  function ComponentsOf(pieces: seq<string>, first: bool): seq<Component> {
    if pieces == [] then [] else PieceAs(pieces[0], first) + ComponentsOf(pieces[1..], false)
  }

  function PieceAs(piece: string, first: bool): seq<Component> {
    if piece == "" || (piece == "." && !first) then []
    else if piece == "." then [CurDir]
    else if piece == ".." then [ParentDir]
    else [Normal(piece)]
  }

  /** `trim_start_matches('/')`. */
  function Relative(containerPath: string): string { TrimStartBy(containerPath, c => c == '/') }

  function Components(containerPath: string): seq<Component> {
    ComponentsOf(Split(Relative(containerPath), '/'), true)
  }

  // ---------------------------------------------------------------------------------------
  // Rust's order on paths: by components, each by its text

  predicate TextLess(a: string, b: string) { !TextLeq(b, a) }

  predicate PathLess(a: Path, b: Path) {
    if b == [] then false
    else if a == [] then true
    else TextLess(a[0], b[0]) || (a[0] == b[0] && PathLess(a[1..], b[1..]))
  }

  /** For a path below the root the comparison with the root asks whether anything was pushed. */
  lemma {:induction false} BelowRootIsGreater(root: Path, stack: Path)
    ensures PathLess(root, root + stack) <==> stack != []
  {
    if root == [] {
      assert root + stack == stack;
    } else {
      TextLeqTotal(root[0], root[0]);
      assert (root + stack)[1..] == root[1..] + stack;
      BelowRootIsGreater(root[1..], stack);
    }
  }

  // ---------------------------------------------------------------------------------------
  // The component stack

  /** The names left after each ".." has taken the one before it; None when there is none. */
  function Normalized(components: seq<Component>): Option<Path> {
    if components == [] then Some([])
    else
      match Normalized(components[..|components| - 1])
      case None => None
      case Some(stack) => Step(stack, components[|components| - 1])
  }

  function Step(stack: Path, c: Component): Option<Path> {
    match c
    case Normal(name) => Some(stack + [name])
    case ParentDir => if stack == [] then None else Some(stack[..|stack| - 1])
    case CurDir => Some(stack)
  }

  lemma NormalizedSnoc(components: seq<Component>, i: nat)
    requires i < |components| && Normalized(components[..i]).Some?
    ensures Normalized(components[..i + 1]) == Step(Normalized(components[..i]).value, components[i])
  {
    assert components[..i + 1][..i] == components[..i];
  }

  /** `resolve_container_path` on a root file system without symbolic links. */
  method ResolveContainerPath(rootfs: Path, containerPath: string) returns (result: Result<Path, CopyError>)
    ensures result ==
            match Normalized(Components(containerPath))
            case None => Err(EscapesRootfs)
            case Some(stack) => Ok(rootfs + stack)
    ensures result.Err? <==>
            exists k :: 0 <= k <= |Split(containerPath, '/')| && Rise(Split(containerPath, '/')[..k]) < 0
  {
    TextEscapesIff(containerPath);
    var components := Components(containerPath);
    result := Resolve(rootfs, components);
  }

  /** The loop over the components. */
  method Resolve(rootfs: Path, components: seq<Component>) returns (result: Result<Path, CopyError>)
    ensures result ==
            match Normalized(components)
            case None => Err(EscapesRootfs)
            case Some(stack) => Ok(rootfs + stack)
  {
    var resolved := rootfs;
    ghost var stack: Path := [];
    assert rootfs + [] == rootfs;
    var i := 0;
    while i < |components|
      invariant 0 <= i <= |components|
      invariant resolved == rootfs + stack
      invariant Normalized(components[..i]) == Some(stack)
    {
      NormalizedSnoc(components, i);
      match components[i] {
        case Normal(name) =>
          assert rootfs + stack + [name] == rootfs + (stack + [name]);
          resolved := resolved + [name];
        case ParentDir =>
          BelowRootIsGreater(rootfs, stack);
          if PathLess(rootfs, resolved) {
            assert (rootfs + stack)[..|resolved| - 1] == rootfs + stack[..|stack| - 1];
            resolved := resolved[..|resolved| - 1];
          } else {
            FailureSticks(components, i + 1);
            return Err(EscapesRootfs);
          }
        case CurDir =>
      }
      stack := Step(stack, components[i]).value;
      i := i + 1;
    }
    assert components[..|components|] == components;
    result := Ok(resolved);
  }

  lemma {:induction false} FailureSticks(components: seq<Component>, i: nat)
    requires i <= |components| && Normalized(components[..i]).None?
    ensures Normalized(components).None?
  {
    if i < |components| {
      assert components[..|components| - 1][..i] == components[..i];
      FailureSticks(components[..|components| - 1], i);
    } else {
      assert components[..i] == components;
    }
  }

  // ---------------------------------------------------------------------------------------
  // When it fails

  /** Names minus parent steps. */
  function Depth(components: seq<Component>): int {
    if components == [] then 0
    else
      Depth(components[..|components| - 1]) +
      match components[|components| - 1]
      case Normal(_) => 1
      case ParentDir => -1
      case CurDir => 0
  }

  lemma {:induction false} StackHasDepth(components: seq<Component>)
    requires Normalized(components).Some?
    ensures |Normalized(components).value| == Depth(components)
  {
    if components == [] {
    } else {
      StackHasDepth(components[..|components| - 1]);
    }
  }

  /** A path escapes exactly when some prefix of its components has more parent steps than names. */
  lemma {:induction false} EscapesIffSomePrefixDoes(components: seq<Component>)
    ensures Normalized(components).None? <==>
            exists k :: 0 <= k <= |components| && Depth(components[..k]) < 0
  {
    assert components[..|components|] == components;
    if components == [] {
    } else {
      var init := components[..|components| - 1];
      EscapesIffSomePrefixDoes(init);
      assert forall k :: 0 <= k <= |init| ==> init[..k] == components[..k];
      if Normalized(init).Some? {
        StackHasDepth(init);
        if Normalized(components).None? {
          assert Depth(components[..|components|]) < 0;
        } else {
          StackHasDepth(components);
        }
      } else {
        var k :| 0 <= k <= |init| && Depth(init[..k]) < 0;
        assert Depth(components[..k]) < 0;
      }
    }
  }

  /** Normalizing leaves only names of the path, and names alone are left as they are. */
  lemma {:induction false} NamesAloneStay(names: Path)
    ensures Normalized(AsComponents(names)) == Some(names)
  {
    if names == [] {
    } else {
      var all := AsComponents(names);
      assert all[..|all| - 1] == AsComponents(names[..|names| - 1]);
      NamesAloneStay(names[..|names| - 1]);
      assert names == names[..|names| - 1] + [names[|names| - 1]];
    }
  }

  function AsComponents(names: Path): (c: seq<Component>)
    ensures |c| == |names| && forall i :: 0 <= i < |names| ==> c[i] == Normal(names[i])
  {
    seq(|names|, i requires 0 <= i < |names| => Normal(names[i]))
  }

  /** A name and the parent step after it cancel anywhere in a path. */
  lemma {:induction false} ParentUndoesName(before: seq<Component>, name: string, after: seq<Component>)
    ensures Normalized(before + [Normal(name), ParentDir] + after) == Normalized(before + after)
  {
    var long, short := before + [Normal(name), ParentDir] + after, before + after;
    if after == [] {
      var one := before + [Normal(name)];
      assert long[..|long| - 1] == one && one[..|one| - 1] == before && short == before;
      if Normalized(before).Some? {
        var stack := Normalized(before).value;
        assert (stack + [name])[..|stack|] == stack;
      }
    } else {
      var init := after[..|after| - 1];
      assert long[..|long| - 1] == before + [Normal(name), ParentDir] + init;
      assert short[..|short| - 1] == before + init;
      ParentUndoesName(before, name, init);
    }
  }

  // ---------------------------------------------------------------------------------------
  // Paths as texts

  /** The names of a path joined with slashes. */
  function Join(names: Path): string
    requires names != []
  {
    if |names| == 1 then names[0] else names[0] + "/" + Join(names[1..])
  }

  predicate IsName(n: string) { n != "" && n != "." && n != ".." && '/' !in n }

  lemma SplitFirst(name: string, rest: string)
    requires '/' !in name
    ensures Split(name + "/" + rest, '/') == [name] + Split(rest, '/')
  {
    var s := name + "/" + rest;
    assert s[..|name|] == name && s[|name| + 1..] == rest;
    IndexOfIs(s, '/', |name|);
  }

  lemma {:induction false} SplitJoined(names: Path)
    requires names != [] && forall i :: 0 <= i < |names| ==> '/' !in names[i]
    ensures Split(Join(names), '/') == names
  {
    if |names| > 1 {
      SplitJoined(names[1..]);
      SplitFirst(names[0], Join(names[1..]));
      assert names == [names[0]] + names[1..];
    } else {
      assert names == [names[0]];
    }
  }

  /** Names minus parent steps, among the pieces of a text. */
  function Rise(pieces: seq<string>): int {
    if pieces == [] then 0
    else
      var last := pieces[|pieces| - 1];
      Rise(pieces[..|pieces| - 1]) + (if last == ".." then -1 else if last == "" || last == "." then 0 else 1)
  }

  /** The pieces stand for these steps: an empty one and a dot for none, two dots for the parent, and
      any other for a name. */
  predicate Means(pieces: seq<string>, steps: seq<Component>) {
    if pieces == [] then steps == []
    else if pieces[0] == "" || pieces[0] == "." then Means(pieces[1..], steps)
    else
      && steps != []
      && steps[0] == (if pieces[0] == ".." then ParentDir else Normal(pieces[0]))
      && Means(pieces[1..], steps[1..])
  }

  /** The steps that move. */
  function Moves(components: seq<Component>): seq<Component> {
    if components == [] then []
    else (if components[0].CurDir? then [] else [components[0]]) + Moves(components[1..])
  }

  lemma {:induction false} MovesConcat(a: seq<Component>, b: seq<Component>)
    ensures Moves(a + b) == Moves(a) + Moves(b)
  {
    if a == [] {
      assert a + b == b;
    } else {
      assert (a + b)[1..] == a[1..] + b;
      MovesConcat(a[1..], b);
    }
  }

  /** Only the steps that move matter. */
  lemma {:induction false} OnlyMovesMatter(components: seq<Component>)
    ensures Normalized(components) == Normalized(Moves(components))
  {
    if components == [] {
    } else {
      var init, last := components[..|components| - 1], components[|components| - 1];
      OnlyMovesMatter(init);
      assert components == init + [last];
      MovesConcat(init, [last]);
      assert [last][1..] == [];
      if last.CurDir? {
        assert Moves(init) + [] == Moves(init);
      } else {
        assert (Moves(init) + [last])[..|Moves(init)|] == Moves(init);
      }
    }
  }

  /** The pieces are read as exactly the steps they stand for. */
  lemma {:induction false} PiecesAreRead(pieces: seq<string>, steps: seq<Component>, first: bool)
    ensures Moves(ComponentsOf(pieces, first)) == steps <==> Means(pieces, steps)
    decreases |pieces|
  {
    if pieces == [] {
    } else {
      var one, rest := PieceAs(pieces[0], first), ComponentsOf(pieces[1..], false);
      MovesConcat(one, rest);
      if pieces[0] == "" || pieces[0] == "." {
        assert Moves(one) == [];
        PiecesAreRead(pieces[1..], steps, false);
      } else {
        var step := if pieces[0] == ".." then ParentDir else Normal(pieces[0]);
        assert one == [step] && one[1..] == [];
        assert Moves(one) == [step];
        if steps != [] {
          PiecesAreRead(pieces[1..], steps[1..], false);
          assert steps == [steps[0]] + steps[1..];
        }
      }
    }
  }

  lemma {:induction false} LeadingEmptyPieces(text: string, steps: seq<Component>)
    ensures Means(Split(Relative(text), '/'), steps) <==> Means(Split(text, '/'), steps)
  {
    if text == "" || text[0] != '/' {
      assert Relative(text) == text;
    } else {
      LeadingEmptyPieces(text[1..], steps);
      assert Relative(text) == Relative(text[1..]);
      EmptyPieceFirst(text);
      EmptyPieceMeansNothing(Split(text[1..], '/'), steps);
    }
  }

  lemma EmptyPieceFirst(text: string)
    requires text != "" && text[0] == '/'
    ensures Split(text, '/') == [""] + Split(text[1..], '/')
  {
    assert text == "" + "/" + text[1..];
    SplitFirst("", text[1..]);
  }

  lemma EmptyPieceMeansNothing(pieces: seq<string>, steps: seq<Component>)
    ensures Means([""] + pieces, steps) <==> Means(pieces, steps)
  {
    assert ([""] + pieces)[1..] == pieces;
  }

  /** A text is read, up to steps that stay, as exactly what its pieces between slashes stand for. */
  lemma TextIsRead(text: string, steps: seq<Component>)
    ensures Moves(Components(text)) == steps <==> Means(Split(text, '/'), steps)
  {
    LeadingEmptyPieces(text, steps);
    PiecesAreRead(Split(Relative(text), '/'), steps, true);
  }

  /** Any pieces without slashes, joined, are read as what they stand for: names and parent steps in
      their order, with empty pieces and dots anywhere between them. */
  lemma JoinedPiecesAreRead(pieces: seq<string>, steps: seq<Component>)
    requires pieces != [] && (forall i :: 0 <= i < |pieces| ==> '/' !in pieces[i]) && Means(pieces, steps)
    ensures Moves(Components(Join(pieces))) == steps
    ensures Normalized(Components(Join(pieces))) == Normalized(steps)
  {
    SplitJoined(pieces);
    TextIsRead(Join(pieces), steps);
    OnlyMovesMatter(Components(Join(pieces)));
  }

  lemma {:induction false} MeansConcat(a: seq<string>, b: seq<string>, s: seq<Component>, t: seq<Component>)
    requires Means(a, s) && Means(b, t)
    ensures Means(a + b, s + t)
  {
    if a == [] {
      assert a + b == b && s + t == t;
    } else {
      assert (a + b)[1..] == a[1..] + b;
      if a[0] == "" || a[0] == "." {
        MeansConcat(a[1..], b, s, t);
      } else {
        assert (s + t)[1..] == s[1..] + t;
        MeansConcat(a[1..], b, s[1..], t);
      }
    }
  }

  /** What the pieces stand for. */
  lemma {:induction false} MeaningOf(pieces: seq<string>) returns (steps: seq<Component>)
    ensures Means(pieces, steps)
  {
    if pieces == [] {
      steps := [];
    } else {
      var rest := MeaningOf(pieces[1..]);
      if pieces[0] == "" || pieces[0] == "." {
        steps := rest;
      } else {
        steps := [if pieces[0] == ".." then ParentDir else Normal(pieces[0])] + rest;
        assert steps[1..] == rest;
      }
    }
  }

  /** A name and two dots after it cancel anywhere in a text. */
  lemma ParentUndoesNameInText(before: seq<string>, name: string, after: seq<string>)
    requires before + after != [] && IsName(name)
    requires forall i :: 0 <= i < |before| ==> '/' !in before[i]
    requires forall i :: 0 <= i < |after| ==> '/' !in after[i]
    ensures Normalized(Components(Join(before + [name, ".."] + after))) == Normalized(Components(Join(before + after)))
  {
    var s := MeaningOf(before);
    var t := MeaningOf(after);
    var there, back := [name, ".."], [Normal(name), ParentDir];
    ThereAndBack(name);
    MeansConcat(before, there, s, back);
    MeansConcat(before + there, after, s + back, t);
    MeansConcat(before, after, s, t);
    PutTogether(before, there, after);
    JoinedPiecesAreRead(before + there + after, s + back + t);
    PutTogether(before, [], after);
    JoinedPiecesAreRead(before + after, s + t);
    ParentUndoesName(s, name, t);
  }

  lemma ThereAndBack(name: string)
    requires IsName(name)
    ensures Means([name, ".."], [Normal(name), ParentDir])
    ensures forall i :: 0 <= i < 2 ==> '/' !in [name, ".."][i]
  {
    assert [name, ".."][1..] == [".."] && [".."][1..] == [];
    assert [Normal(name), ParentDir][1..] == [ParentDir] && [ParentDir][1..] == [];
    assert Means([".."], [ParentDir]);
  }

  lemma PutTogether(a: seq<string>, b: seq<string>, c: seq<string>)
    requires forall i :: 0 <= i < |a| ==> '/' !in a[i]
    requires forall i :: 0 <= i < |b| ==> '/' !in b[i]
    requires forall i :: 0 <= i < |c| ==> '/' !in c[i]
    ensures forall i :: 0 <= i < |a + b + c| ==> '/' !in (a + b + c)[i]
    ensures b == [] ==> a + b + c == a + c
  {
  }

  // ---------------------------------------------------------------------------------------
  // When a text leads out

  lemma RiseCons(piece: string, pieces: seq<string>)
    ensures Rise([piece] + pieces) == Rise([piece]) + Rise(pieces)
  {
    if pieces == [] {
      assert [piece] + pieces == [piece];
    } else {
      var all := [piece] + pieces;
      assert all[..|all| - 1] == [piece] + pieces[..|pieces| - 1];
      RiseCons(piece, pieces[..|pieces| - 1]);
    }
  }

  lemma DepthCons(c: Component, rest: seq<Component>)
    ensures Depth([c] + rest) == Depth([c]) + Depth(rest)
  {
    if rest == [] {
      assert [c] + rest == [c];
    } else {
      var all := [c] + rest;
      assert all[..|all| - 1] == [c] + rest[..|rest| - 1];
      DepthCons(c, rest[..|rest| - 1]);
    }
  }

  /** The pieces sink below the level from which they start, having risen by n before. */
  ghost predicate Sinks(pieces: seq<string>, n: int) {
    exists k :: 0 <= k <= |pieces| && n + Rise(pieces[..k]) < 0
  }

  ghost predicate StepsSink(steps: seq<Component>, n: int) {
    exists k :: 0 <= k <= |steps| && n + Depth(steps[..k]) < 0
  }

  lemma SinksCons(pieces: seq<string>, n: int)
    requires pieces != []
    ensures Sinks(pieces, n) <==> n < 0 || Sinks(pieces[1..], n + Rise([pieces[0]]))
  {
    var rest := pieces[1..];
    forall k | 0 <= k <= |rest|
      ensures Rise(pieces[..k + 1]) == Rise([pieces[0]]) + Rise(rest[..k])
    {
      assert pieces[..k + 1] == [pieces[0]] + rest[..k];
      RiseCons(pieces[0], rest[..k]);
    }
    assert Rise(pieces[..0]) == 0;
    if k :| 0 <= k <= |pieces| && n + Rise(pieces[..k]) < 0 {
      if k > 0 {
        assert n + Rise([pieces[0]]) + Rise(rest[..k - 1]) < 0;
      }
    }
    if k :| 0 <= k <= |rest| && n + Rise([pieces[0]]) + Rise(rest[..k]) < 0 {
      assert n + Rise(pieces[..k + 1]) < 0;
    }
  }

  lemma StepsSinkCons(steps: seq<Component>, n: int)
    requires steps != []
    ensures StepsSink(steps, n) <==> n < 0 || StepsSink(steps[1..], n + Depth([steps[0]]))
  {
    var rest := steps[1..];
    forall k | 0 <= k <= |rest|
      ensures Depth(steps[..k + 1]) == Depth([steps[0]]) + Depth(rest[..k])
    {
      assert steps[..k + 1] == [steps[0]] + rest[..k];
      DepthCons(steps[0], rest[..k]);
    }
    assert Depth(steps[..0]) == 0;
    if k :| 0 <= k <= |steps| && n + Depth(steps[..k]) < 0 {
      if k > 0 {
        assert n + Depth([steps[0]]) + Depth(rest[..k - 1]) < 0;
      }
    }
    if k :| 0 <= k <= |rest| && n + Depth([steps[0]]) + Depth(rest[..k]) < 0 {
      assert n + Depth(steps[..k + 1]) < 0;
    }
  }

  lemma {:induction false} SinkTogether(pieces: seq<string>, steps: seq<Component>, n: int)
    requires Means(pieces, steps)
    ensures Sinks(pieces, n) <==> StepsSink(steps, n)
  {
    if pieces == [] {
      assert pieces[..0] == [] && steps[..0] == [];
      assert Rise(pieces[..0]) == 0 && Depth(steps[..0]) == 0;
    } else {
      SinksCons(pieces, n);
      assert [pieces[0]][..0] == [];
      if pieces[0] == "" || pieces[0] == "." {
        assert Rise([pieces[0]]) == 0;
        SinkTogether(pieces[1..], steps, n);
        assert n < 0 ==> StepsSink(steps, n) by {
          assert Depth(steps[..0]) == 0;
        }
      } else {
        StepsSinkCons(steps, n);
        assert [steps[0]][..0] == [];
        assert Rise([pieces[0]]) == Depth([steps[0]]);
        SinkTogether(pieces[1..], steps[1..], n + Rise([pieces[0]]));
      }
    }
  }

  /** A text escapes exactly when some prefix of its pieces between slashes has more double dots than
      names, which are the pieces other than the empty one and the dots. */
  lemma TextEscapesIff(text: string)
    ensures Normalized(Components(text)).None? <==>
            exists k :: 0 <= k <= |Split(text, '/')| && Rise(Split(text, '/')[..k]) < 0
  {
    var pieces, steps := Split(text, '/'), Moves(Components(text));
    TextIsRead(text, steps);
    OnlyMovesMatter(Components(text));
    EscapesIffSomePrefixDoes(steps);
    SinkTogether(pieces, steps, 0);
    assert Sinks(pieces, 0) <==> exists k :: 0 <= k <= |pieces| && Rise(pieces[..k]) < 0;
    assert StepsSink(steps, 0) <==> exists k :: 0 <= k <= |steps| && Depth(steps[..k]) < 0;
  }

  lemma {:induction false} NamesAreComponents(names: Path, first: bool)
    requires forall i :: 0 <= i < |names| ==> IsName(names[i])
    ensures ComponentsOf(names, first) == AsComponents(names)
  {
    if names == [] {
    } else {
      NamesAreComponents(names[1..], false);
      assert AsComponents(names) == [Normal(names[0])] + AsComponents(names[1..]);
    }
  }

  /** A path of plain names, with any number of slashes in front, resolves to just these names. */
  lemma PlainPathResolves(names: Path, slashes: nat)
    requires names != [] && forall i :: 0 <= i < |names| ==> IsName(names[i])
    ensures Normalized(Components(Slashes(slashes) + Join(names))) == Some(names)
  {
    LeadingSlashesGo(Join(names), slashes);
    assert Join(names)[0] == names[0][0];
    SplitJoined(names);
    NamesAreComponents(names, true);
    NamesAloneStay(names);
  }

  function Slashes(n: nat): string { seq(n, _ => '/') }

  lemma {:induction false} LeadingSlashesGo(s: string, n: nat)
    requires s != "" && s[0] != '/'
    ensures Relative(Slashes(n) + s) == s
  {
    var all := Slashes(n) + s;
    if n > 0 {
      assert all[1..] == Slashes(n - 1) + s;
      LeadingSlashesGo(s, n - 1);
    } else {
      assert all == s;
    }
  }
}
