/**
 * Confinement of IDE file requests to the selected workspace folder
 * (`_resolve_workspace_path`): a request path is joined onto the workspace
 * root, resolved lexically, and refused when the result is not the root or a
 * path below it.
 */
module Workspace {
  import opened Common
  import opened Paths

  /** A resolved absolute path, as its components: none empty, "." or "..". */
  predicate Normal(p: seq<string>)
  {
    forall i :: 0 <= i < |p| ==> ValidPart(p[i]) && p[i] != ".."
  }

  /** One component of lexical resolution: "" and "." stay, ".." climbs (not above "/"). */
  function Step(p: seq<string>, piece: string): seq<string>
  {
    if piece == "" || piece == "." then p
    else if piece == ".." then (if p == [] then p else p[..|p| - 1])
    else p + [piece]
  }

  /** Resolve the pieces of a split path, in order, starting at `base`. */
  function Walk(base: seq<string>, pieces: seq<string>): (r: seq<string>)
    requires Normal(base) && NoSeparator(pieces)
    ensures Normal(r)
    decreases |pieces|
  {
    if pieces == [] then base
    else Step(Walk(base, pieces[..|pieces| - 1]), pieces[|pieces| - 1])
  }

  /** `(Path(base) / s).resolve()` without symbolic links: an absolute `s` replaces `base`. */
  function Resolve(base: seq<string>, s: string): (r: seq<string>)
    requires Normal(base)
    ensures Normal(r)
  {
    Walk(if IsAbsolute(s) then [] else base, Split(s))
  }

  /** The text of a resolved absolute path, as `str(target)` prints it. */
  function AbsoluteString(p: seq<string>): string
  {
    [SEP] + Join(p)
  }

  datatype PathError = NoWorkspace | Escapes(relativePath: string)
  {
    /** The `ValueError` message the IDE returns to the client. */
    function Message(): string
    {
      match this
      case NoWorkspace => "No workspace folder selected"
      case Escapes(rel) => "Path '" + rel + "' escapes workspace"
    }
  }

  /** `if not WORKSPACE_ROOT`: no root, or the empty string. */
  predicate HasRoot(root: Option<string>)
  {
    root.Some? && root.value != ""
  }

  /** `Path(WORKSPACE_ROOT).resolve()`, relative roots resolved against `cwd`. */
  function WorkspaceDir(root: string, cwd: seq<string>): (ws: seq<string>)
    requires Normal(cwd)
    ensures Normal(ws)
  {
    Resolve(cwd, root)
  }

  /**
   * `_resolve_workspace_path(relative_path)` with the global root passed in
   * as `root` and the process working directory as `cwd`.
   */
  function ResolveWorkspacePath(root: Option<string>, cwd: seq<string>, relativePath: string)
    : (r: Result<seq<string>, PathError>)
    requires Normal(cwd)
    ensures !HasRoot(root) ==> r == Failure(NoWorkspace)
    ensures r.Success? ==> HasRoot(root) && Normal(r.value)
                           && r.value == Resolve(WorkspaceDir(root.value, cwd), relativePath)
                           && IsPrefix(WorkspaceDir(root.value, cwd), r.value)
    ensures HasRoot(root) && r.Failure? ==>
              r.error == Escapes(relativePath)
              && !IsPrefix(WorkspaceDir(root.value, cwd), Resolve(WorkspaceDir(root.value, cwd), relativePath))
  {
    if !HasRoot(root) then Failure(NoWorkspace)
    else
      var workspace := WorkspaceDir(root.value, cwd);
      var target := Resolve(workspace, relativePath);
      if IsPrefix(workspace, target) then Success(target) else Failure(Escapes(relativePath))
  }

  // ---------------------------------------------------------------------------
  // An independent description of lexical resolution: a relative path first
  // climbs `ups` levels and then descends through `downs`.
  // ---------------------------------------------------------------------------

  datatype Climb = Climb(ups: nat, downs: seq<string>)

  /** The net effect of a relative path, computed on the path alone. */
  function Reduce(pieces: seq<string>): Climb
    decreases |pieces|
  {
    if pieces == [] then Climb(0, [])
    else
      var c := Reduce(pieces[..|pieces| - 1]);
      var x := pieces[|pieces| - 1];
      if x == "" || x == "." then c
      else if x == ".." then
        (if c.downs == [] then Climb(c.ups + 1, []) else Climb(c.ups, c.downs[..|c.downs| - 1]))
      else Climb(c.ups, c.downs + [x])
  }

  /** `base` after climbing `k` levels; climbing stops at the root. */
  function Drop(base: seq<string>, k: nat): (r: seq<string>)
    ensures IsPrefix(r, base)
    ensures |r| == if k <= |base| then |base| - k else 0
  {
    base[..if k <= |base| then |base| - k else 0]
  }

  /** Resolution from any base is "climb, then descend". */
  lemma {:induction false} WalkReduce(base: seq<string>, pieces: seq<string>)
    requires Normal(base) && NoSeparator(pieces)
    ensures Walk(base, pieces) == Drop(base, Reduce(pieces).ups) + Reduce(pieces).downs
    decreases |pieces|
  {
    if pieces != [] {
      var front := pieces[..|pieces| - 1];
      WalkReduce(base, front);
      var c := Reduce(front);
      var x := pieces[|pieces| - 1];
      var w := Walk(base, front);
      assert w == Drop(base, c.ups) + c.downs;
      if x == ".." {
        if c.downs == [] {
          assert w == Drop(base, c.ups);
          if w != [] {
            assert w[..|w| - 1] == Drop(base, c.ups + 1);
          }
        } else {
          assert w[..|w| - 1] == Drop(base, c.ups) + c.downs[..|c.downs| - 1];
        }
      } else if x != "" && x != "." {
        assert w + [x] == Drop(base, c.ups) + (c.downs + [x]);
      }
    }
  }

  /** A path without any ".." component never climbs. */
  lemma {:induction false} NoParentStepNoClimb(pieces: seq<string>)
    requires ".." !in pieces
    ensures Reduce(pieces).ups == 0
    decreases |pieces|
  {
    if pieces != [] {
      var front := pieces[..|pieces| - 1];
      assert forall i :: 0 <= i < |front| ==> front[i] == pieces[i];
      NoParentStepNoClimb(front);
    }
  }

  /**
   * A relative path that never climbs stays inside the workspace: it resolves
   * to the workspace followed by the path's own components.
   */
  lemma DescendingPathStaysInside(root: string, cwd: seq<string>, relativePath: string)
    requires Normal(cwd) && root != ""
    requires !IsAbsolute(relativePath)
    requires ".." !in Split(relativePath)
    ensures ResolveWorkspacePath(Some(root), cwd, relativePath)
            == Success(WorkspaceDir(root, cwd) + Reduce(Split(relativePath)).downs)
  {
    NoParentStepNoClimb(Split(relativePath));
    WalkReduce(WorkspaceDir(root, cwd), Split(relativePath));
  }

  /**
   * For a relative path the guard fails exactly when the path climbs and the
   * place it lands on, `ups` levels up and then down through `downs`, does
   * not lie under the workspace again.
   */
  lemma RelativeEscapesIff(root: string, cwd: seq<string>, relativePath: string)
    requires Normal(cwd) && root != ""
    requires !IsAbsolute(relativePath)
    ensures var c := Reduce(Split(relativePath));
            var ws := WorkspaceDir(root, cwd);
            ResolveWorkspacePath(Some(root), cwd, relativePath).Failure?
            <==> c.ups > 0 && !IsPrefix(ws, Drop(ws, c.ups) + c.downs)
  {
    var ws := WorkspaceDir(root, cwd);
    var c := Reduce(Split(relativePath));
    WalkReduce(ws, Split(relativePath));
    if c.ups == 0 {
      assert Drop(ws, 0) == ws;
      assert (ws + c.downs)[..|ws|] == ws;
    }
  }

  /** Climbing out of a non-root workspace without coming back down escapes (e.g. ".." or "a/../.."). */
  lemma ClimbingAboveRootEscapes(root: string, cwd: seq<string>, relativePath: string)
    requires Normal(cwd) && root != ""
    requires !IsAbsolute(relativePath)
    requires WorkspaceDir(root, cwd) != []
    requires Reduce(Split(relativePath)).ups > 0 && Reduce(Split(relativePath)).downs == []
    ensures ResolveWorkspacePath(Some(root), cwd, relativePath) == Failure(Escapes(relativePath))
  {
    var ws := WorkspaceDir(root, cwd);
    RelativeEscapesIff(root, cwd, relativePath);
    var c := Reduce(Split(relativePath));
    assert |Drop(ws, c.ups) + c.downs| < |ws|;
  }

  /**
   * An absolute request path ignores the workspace: it lands on its own
   * descent `downs` (its climbs are absorbed at "/"), and is accepted exactly
   * when that place lies under the workspace.
   */
  lemma AbsolutePathIsCheckedAgainstRoot(root: string, cwd: seq<string>, relativePath: string)
    requires Normal(cwd) && root != ""
    requires IsAbsolute(relativePath)
    ensures var target := Reduce(Split(relativePath)).downs;
            ResolveWorkspacePath(Some(root), cwd, relativePath)
            == if IsPrefix(WorkspaceDir(root, cwd), target) then Success(target)
               else Failure(Escapes(relativePath))
  {
    var c := Reduce(Split(relativePath));
    WalkReduce([], Split(relativePath));
    assert Drop([], c.ups) == [];
    assert Walk([], Split(relativePath)) == [] + c.downs == c.downs;
    assert Resolve(WorkspaceDir(root, cwd), relativePath) == c.downs;
  }

  /** Walking two lists of pieces is walking the first, then the second. */
  lemma {:induction false} WalkAppend(base: seq<string>, a: seq<string>, b: seq<string>)
    requires Normal(base) && NoSeparator(a) && NoSeparator(b)
    ensures NoSeparator(a + b)
    ensures Walk(base, a + b) == Walk(Walk(base, a), b)
    decreases |b|
  {
    assert NoSeparator(a + b) by {
      forall i | 0 <= i < |a + b| ensures SEP !in (a + b)[i] {
        if i < |a| { assert (a + b)[i] == a[i]; } else { assert (a + b)[i] == b[i - |a|]; }
      }
    }
    if b != [] {
      var front := b[..|b| - 1];
      WalkAppend(base, a, front);
      assert (a + b)[..|a + b| - 1] == a + front;
      assert (a + b)[|a + b| - 1] == b[|b| - 1];
    } else {
      assert a + b == a;
    }
  }

  /** Walking the components of a resolved path simply appends them. */
  lemma {:induction false} WalkNormal(base: seq<string>, p: seq<string>)
    requires Normal(base) && Normal(p)
    ensures NoSeparator(p)
    ensures Walk(base, p) == base + p
    decreases |p|
  {
    if p != [] {
      var front := p[..|p| - 1];
      WalkNormal(base, front);
      assert base + front + [p[|p| - 1]] == base + p;
    }
  }

  /** Re-resolving the printed form of a resolved path gives the same path. */
  lemma ResolveAbsoluteString(p: seq<string>)
    requires Normal(p)
    ensures Resolve([], AbsoluteString(p)) == p
  {
    var s := AbsoluteString(p);
    WalkNormal([], p);
    if p == [] {
      assert s == [SEP];
      assert [SEP][1..] == [] && Split([]) == [""];
      assert Split(s) == ["", ""];
      assert Walk([], ["", ""]) == Step(Walk([], [""]), "");
      assert Walk([], [""]) == Step(Walk([], []), "");
    } else {
      SplitJoin(p);
      assert s == "" + [SEP] + Join(p);
      SplitAtSeparator("", Join(p));
      assert Split(s) == [""] + p;
      assert Walk([], [""]) == Step(Walk([], []), "");
      WalkAppend([], [""], p);
    }
  }

  /**
   * A path the guard accepted, handed back as its absolute text (as the IDE
   * does with `absolutePath`), is accepted again and names the same place.
   */
  lemma AcceptedPathIsStable(root: string, cwd: seq<string>, relativePath: string)
    requires Normal(cwd) && root != ""
    requires ResolveWorkspacePath(Some(root), cwd, relativePath).Success?
    ensures var t := ResolveWorkspacePath(Some(root), cwd, relativePath).value;
            ResolveWorkspacePath(Some(root), cwd, AbsoluteString(t)) == Success(t)
  {
    var t := ResolveWorkspacePath(Some(root), cwd, relativePath).value;
    ResolveAbsoluteString(t);
  }
}
