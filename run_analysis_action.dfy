/**
 * `RunAnalysisAction`: analyses the Kotlin files among the selected files
 * and everything below the selected directories, stores each file's
 * findings and then notifies the findings' listeners.
 */
module RunAnalysisAction {
  import opened Wrappers
  import opened Strings
  import opened FileSystem
  import opened DetektApi
  import opened FilesListPanel
  import FM = FindingsManager

  /** A file of the selection: a plain file, or a directory with its children. */
  datatype Node = FileNode(file: VirtualFile) | DirNode(dir: VirtualFile, children: seq<Node>)

  /** `VirtualFile.getName`: the path after its last separator. */
  function Name(f: VirtualFile): string
  {
    SubstringAfterLast(f.path, Separator)
  }

  /** `VirtualFile.getExtension`: the name after its last '.', or none when it has no '.'. */
  function Extension(f: VirtualFile): (r: Option<string>)
    ensures r.None? <==> '.' !in Name(f)
    ensures r.Some? ==> '.' !in r.value
  {
    if '.' in Name(f) then Some(SubstringAfterLast(Name(f), '.')) else None
  }

  /** `KOTLIN_FILE_EXTENSIONS`. */
  const KotlinFileExtensions: set<string> := {"kt", "kts"}

  predicate IsDirectoryOrKotlinFile(n: Node)
  {
    n.DirNode? || (Extension(n.file).Some? && Extension(n.file).value in KotlinFileExtensions)
  }

  /**
   * `update`: without a selection the presentation stays as it is;
   * otherwise the action is enabled and visible iff some selected file is
   * a directory or a Kotlin source or script.
   */
  function Update(selected: Option<seq<Node>>, enabledAndVisible: bool): (r: bool)
    ensures selected.None? ==> r == enabledAndVisible
    ensures selected.Some? ==> (r <==> exists i :: 0 <= i < |selected.value| && IsDirectoryOrKotlinFile(selected.value[i]))
  {
    match selected
    case None => enabledAndVisible
    case Some(files) => exists i :: 0 <= i < |files| && IsDirectoryOrKotlinFile(files[i])
  }

  /** A file whose path ends in `.kt` has the extension `kt`. */
  lemma KotlinSourceExtension(stem: string)
    ensures Extension(VirtualFile(stem + ".kt")) == Some("kt")
  {
    var path := stem + ".kt";
    SubstringAfterLastAppend(stem, Separator, ".kt");
    var prefix := SubstringAfterLast(stem, Separator);
    var name := Name(VirtualFile(path));
    assert name == prefix + ".kt";
    var withDot := prefix + ".";
    assert name == withDot + "kt";
    assert withDot[|withDot| - 1] == '.';
    assert SubstringAfterLast(withDot, '.') == "";
    SubstringAfterLastAppend(withDot, '.', "kt");
    assert name[|prefix|] == '.';
    assert SubstringAfterLast(name, '.') == "kt";
    assert '.' in name;
    assert Extension(VirtualFile(path)) == Some("kt");
  }

  /** Selecting a Kotlin source enables the action. */
  lemma KotlinSourceEnables(stem: string, others: seq<Node>, enabledAndVisible: bool)
    ensures Update(Some(others + [FileNode(VirtualFile(stem + ".kt"))]), enabledAndVisible)
  {
    KotlinSourceExtension(stem);
    var files := others + [FileNode(VirtualFile(stem + ".kt"))];
    assert IsDirectoryOrKotlinFile(files[|others|]);
  }

  /** The number of nodes in a list of trees, counting every descendant. */
  function Weight(s: seq<Node>): nat
    decreases s
  {
    if s == [] then 0
    else
      (match s[0]
       case FileNode(_) => 1
       case DirNode(_, children) => 1 + Weight(children))
      + Weight(s[1..])
  }

  lemma {:induction false} WeightAppend(a: seq<Node>, b: seq<Node>)
    ensures Weight(a + b) == Weight(a) + Weight(b)
    decreases a
  {
    if a != [] {
      assert (a + b)[0] == a[0];
      assert (a + b)[1..] == a[1..] + b;
      WeightAppend(a[1..], b);
    } else {
      assert a + b == b;
    }
  }

  /** The regular files in a list of trees, with multiplicity. */
  function Leaves(s: seq<Node>): multiset<VirtualFile>
    decreases s
  {
    if s == [] then multiset{}
    else
      (match s[0]
       case FileNode(f) => multiset{f}
       case DirNode(_, children) => Leaves(children))
      + Leaves(s[1..])
  }

  lemma {:induction false} LeavesAppend(a: seq<Node>, b: seq<Node>)
    ensures Leaves(a + b) == Leaves(a) + Leaves(b)
    decreases a
  {
    if a != [] {
      assert (a + b)[0] == a[0];
      assert (a + b)[1..] == a[1..] + b;
      LeavesAppend(a[1..], b);
    } else {
      assert a + b == b;
    }
  }

  /** Popping the top of a stack of trees takes away its weight. */
  lemma PopWeight(stack: seq<Node>)
    requires stack != []
    ensures var top := stack[|stack| - 1];
            var rest := stack[..|stack| - 1];
            Weight(rest) < Weight(stack)
            && (top.DirNode? ==> Weight(rest + top.children) < Weight(stack))
            && Leaves(stack) == Leaves(rest) + Leaves([top])
  {
    var top := stack[|stack| - 1];
    var rest := stack[..|stack| - 1];
    assert stack == rest + [top];
    WeightAppend(rest, [top]);
    LeavesAppend(rest, [top]);
    if top.DirNode? {
      WeightAppend(rest, top.children);
      assert Weight([top]) == 1 + Weight(top.children) by {
        assert [top][1..] == [];
      }
    }
  }

  /**
   * The files `findAllFilesRecursively` yields from a stack whose top is
   * its last element: a popped file is yielded, a popped directory is
   * replaced by its children.
   */
  function Yielded(stack: seq<Node>): seq<VirtualFile>
    decreases Weight(stack)
  {
    if stack == [] then []
    else
      PopWeight(stack);
      var top := stack[|stack| - 1];
      var rest := stack[..|stack| - 1];
      match top
      case FileNode(f) => [f] + Yielded(rest)
      case DirNode(_, children) => Yielded(rest + children)
  }

  /** Every regular file below the selection is yielded, as often as it occurs, and nothing else. */
  lemma {:induction false} YieldedAreLeaves(stack: seq<Node>)
    ensures multiset(Yielded(stack)) == Leaves(stack)
    decreases Weight(stack)
  {
    if stack != [] {
      PopWeight(stack);
      var top := stack[|stack| - 1];
      var rest := stack[..|stack| - 1];
      assert [top][1..] == [];
      match top
      case FileNode(f) =>
        YieldedAreLeaves(rest);
      case DirNode(_, children) =>
        YieldedAreLeaves(rest + children);
        LeavesAppend(rest, children);
    }
  }

  /** `findAllFilesRecursively`: the stack loop over the selection. */
  method FindAllFilesRecursively(selectedFiles: seq<Node>) returns (files: seq<VirtualFile>)
    ensures files == Yielded(selectedFiles)
    ensures multiset(files) == Leaves(selectedFiles)
  {
    var dirStack := selectedFiles;
    files := [];
    while |dirStack| > 0
      invariant files + Yielded(dirStack) == Yielded(selectedFiles)
      decreases Weight(dirStack)
    {
      PopWeight(dirStack);
      var current := dirStack[|dirStack| - 1];
      dirStack := dirStack[..|dirStack| - 1];
      if current.DirNode? {
        dirStack := dirStack + current.children;
      } else {
        files := files + [current.file];
      }
    }
    YieldedAreLeaves(selectedFiles);
  }

  /** The files kept by `mapNotNull { findFile }.filter { Kotlin }`, in order. */
  function KotlinFiles(files: seq<VirtualFile>, isKotlinPsi: VirtualFile -> bool): (r: seq<VirtualFile>)
    ensures forall f :: f in r <==> f in files && isKotlinPsi(f)
  {
    if files == [] then []
    else (if isKotlinPsi(files[0]) then [files[0]] else []) + KotlinFiles(files[1..], isKotlinPsi)
  }

  /** The findings map after `put` of each file's analysis, in order. */
  function PutAll(state: map<VirtualFile, seq<Finding>>, files: seq<VirtualFile>, analyse: VirtualFile -> seq<Finding>): map<VirtualFile, seq<Finding>>
  {
    if files == [] then state
    else
      var last := files[|files| - 1];
      PutAll(state, files[..|files| - 1], analyse)[last := analyse(last)]
  }

  /** After storing, an analysed file holds its analysis and every other file what it held before. */
  lemma {:induction false} PutAllLookup(state: map<VirtualFile, seq<Finding>>, files: seq<VirtualFile>, analyse: VirtualFile -> seq<Finding>)
    ensures PutAll(state, files, analyse).Keys == state.Keys + set f | f in files
    ensures forall f :: f in files ==> PutAll(state, files, analyse)[f] == analyse(f)
    ensures forall f :: f in state && f !in files ==> PutAll(state, files, analyse)[f] == state[f]
    decreases |files|
  {
    if files != [] {
      var init := files[..|files| - 1];
      PutAllLookup(state, init, analyse);
      assert files == init + [files[|files| - 1]];
      assert forall f :: f in files <==> f in init || f == files[|files| - 1];
    }
  }

  /**
   * `actionPerformed`: nothing for a missing or empty selection or without a
   * project; otherwise each Kotlin file found below the selection is
   * analysed and its findings stored, and the listeners are then notified
   * once. `isKotlinPsi` says which files open as Kotlin PSI files and
   * `analyse` stands for `execute(psi, false)`.
   */
  method ActionPerformed(selectedFiles: Option<seq<Node>>, hasProject: bool, isKotlinPsi: VirtualFile -> bool,
                         analyse: VirtualFile -> seq<Finding>, manager: FM.FindingsManager)
    modifies manager
    ensures selectedFiles.None? || selectedFiles.value == [] || !hasProject ==>
      manager.state == old(manager.state) && manager.invoked == old(manager.invoked)
    ensures selectedFiles.Some? && selectedFiles.value != [] && hasProject ==>
      manager.state == PutAll(old(manager.state), KotlinFiles(Yielded(selectedFiles.value), isKotlinPsi), analyse)
      && manager.invoked == old(manager.invoked) + multiset(manager.listeners)
    ensures manager.listeners == old(manager.listeners)
  {
    if selectedFiles.None? || |selectedFiles.value| == 0 {
      return;
    }
    if !hasProject {
      return;
    }
    var found := FindAllFilesRecursively(selectedFiles.value);
    var psiFiles := KotlinFiles(found, isKotlinPsi);
    var i := 0;
    while i < |psiFiles|
      invariant 0 <= i <= |psiFiles|
      invariant manager.state == PutAll(old(manager.state), psiFiles[..i], analyse)
      invariant manager.invoked == old(manager.invoked) && manager.listeners == old(manager.listeners)
    {
      manager.Put(psiFiles[i], analyse(psiFiles[i]));
      assert psiFiles[..i + 1][..i] == psiFiles[..i];
      i := i + 1;
    }
    assert psiFiles[..i] == psiFiles;
    manager.NotifyListeners();
  }

  /** After a run every Kotlin file below the selection holds its analysis. */
  lemma RunStoresEveryKotlinFile(state: map<VirtualFile, seq<Finding>>, selected: seq<Node>, isKotlinPsi: VirtualFile -> bool,
                                 analyse: VirtualFile -> seq<Finding>, f: VirtualFile)
    requires f in Leaves(selected) && isKotlinPsi(f)
    ensures var after := PutAll(state, KotlinFiles(Yielded(selected), isKotlinPsi), analyse);
            f in after && after[f] == analyse(f)
  {
    YieldedAreLeaves(selected);
    assert f in multiset(Yielded(selected));
    PutAllLookup(state, KotlinFiles(Yielded(selected), isKotlinPsi), analyse);
  }
}
