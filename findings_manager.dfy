/**
 * `FindingsManager`: the project's findings per analysed file, and the
 * listeners told when they change.
 */
module FindingsManager {
  import opened DetektApi
  import opened FilesListPanel
  import opened ListEdits

  /** A registered listener; two registrations of the same listener are the same element of the set. */
  datatype Listener = Listener(id: nat)

  /** The number of findings stored over all files. */
  ghost function TotalSize(state: map<VirtualFile, seq<Finding>>): nat
    decreases |state.Keys|
  {
    if state == map[] then 0
    else
      var f :| f in state;
      |state[f]| + TotalSize(state - {f})
  }

  /** The total counts the findings of any one file plus those of the others. */
  lemma {:induction false} TotalSizeSplit(state: map<VirtualFile, seq<Finding>>, f: VirtualFile)
    requires f in state
    ensures TotalSize(state) == |state[f]| + TotalSize(state - {f})
    decreases |state.Keys|
  {
    var g :| g in state && TotalSize(state) == |state[g]| + TotalSize(state - {g});
    if g != f {
      var without := state - {g};
      assert f in without;
      TotalSizeSplit(without, f);
      var both := without - {f};
      assert both == (state - {f}) - {g};
      assert g in state - {f};
      TotalSizeSplit(state - {f}, g);
      assert (state - {f})[g] == state[g];
    }
  }

  /** Replacing one file's list changes the total by the difference of the two lists' sizes. */
  lemma TotalSizeAfterPut(state: map<VirtualFile, seq<Finding>>, f: VirtualFile, findings: seq<Finding>)
    ensures TotalSize(state[f := findings]) == TotalSize(state - {f}) + |findings|
  {
    var after := state[f := findings];
    TotalSizeSplit(after, f);
    assert after - {f} == state - {f};
  }

  class FindingsManager {
    var state: map<VirtualFile, seq<Finding>>
    var listeners: set<Listener>
    /** How many times each listener has been invoked. */
    var invoked: multiset<Listener>

    constructor()
      ensures state == map[] && listeners == {} && invoked == multiset{}
    {
      state := map[];
      listeners := {};
      invoked := multiset{};
    }

    /** `register`: the listener joins the set. */
    method Register(listener: Listener)
      modifies this
      ensures listeners == old(listeners) + {listener}
      ensures state == old(state) && invoked == old(invoked)
    {
      listeners := listeners + {listener};
    }

    /** `notifyListeners`: every registered listener is invoked once. */
    method NotifyListeners()
      modifies this
      ensures invoked == old(invoked) + multiset(listeners)
      ensures state == old(state) && listeners == old(listeners)
    {
      var pending := listeners;
      while pending != {}
        invariant pending <= listeners
        invariant invoked == old(invoked) + multiset(listeners - pending)
        invariant state == old(state) && listeners == old(listeners)
        decreases |pending|
      {
        var l :| l in pending;
        invoked := invoked + multiset{l};
        assert listeners - (pending - {l}) == (listeners - pending) + {l};
        pending := pending - {l};
      }
      assert listeners - pending == listeners;
    }

    /** `getAllFindingsSize`: the sizes of the stored lists, summed. */
    method GetAllFindingsSize() returns (total: nat)
      ensures total == TotalSize(state)
    {
      total := 0;
      var rest := state;
      while rest != map[]
        invariant forall f :: f in rest ==> f in state && rest[f] == state[f]
        invariant total + TotalSize(rest) == TotalSize(state)
        decreases |rest.Keys|
      {
        var f :| f in rest;
        TotalSizeSplit(rest, f);
        total := total + |rest[f]|;
        rest := rest - {f};
      }
    }

    /** `getFindings`: the list stored for the file, or none. */
    function GetFindings(file: VirtualFile): (r: seq<Finding>)
      reads this
      ensures file in state ==> r == state[file]
      ensures file !in state ==> r == []
    {
      if file in state then state[file] else []
    }

    /** `getAnalyzedFiles`: each file that has a stored list, once. */
    method GetAnalyzedFiles() returns (files: seq<VirtualFile>)
      ensures forall f :: f in files <==> f in state
      ensures Distinct(files)
      ensures |files| == |state.Keys|
    {
      files := [];
      var rest := state.Keys;
      while rest != {}
        invariant rest <= state.Keys
        invariant forall f :: f in files <==> f in state.Keys - rest
        invariant Distinct(files)
        invariant |files| + |rest| == |state.Keys|
        decreases |rest|
      {
        var f :| f in rest;
        assert f !in files;
        files := files + [f];
        rest := rest - {f};
      }
    }

    /**
     * `put`: the file's list is replaced by the given one; the other files'
     * lists stay as they were.
     */
    method Put(file: VirtualFile, findings: seq<Finding>)
      modifies this
      ensures state == old(state)[file := findings]
      ensures GetFindings(file) == findings
      ensures forall g :: g != file ==> GetFindings(g) == old(GetFindings(g))
      ensures TotalSize(state) == TotalSize(old(state) - {file}) + |findings|
      ensures listeners == old(listeners) && invoked == old(invoked)
    {
      TotalSizeAfterPut(state, file, findings);
      state := state[file := findings];
    }

    /** `dispose`: no findings and no listeners are left. */
    method Dispose()
      modifies this
      ensures state == map[] && listeners == {}
      ensures invoked == old(invoked)
    {
      listeners := {};
      state := map[];
    }
  }

  /** Registering a listener twice leaves one registration: a notification invokes it once. */
  method RegisterTwiceNotifiesOnce(manager: FindingsManager, listener: Listener)
    modifies manager
    ensures manager.listeners == old(manager.listeners) + {listener}
    ensures manager.invoked[listener] == old(manager.invoked[listener]) + 1
  {
    manager.Register(listener);
    manager.Register(listener);
    manager.NotifyListeners();
  }
}
