/**
 * The list of detekt plugins in the settings form: jar files and Maven
 * coordinates, added without duplicates and removed by selected position.
 */
module PluginsListPanel {
  import opened Wrappers
  import opened ListEdits
  import opened FilesListPanel
  import P = PluginDependencyService
  import MavenSearchDialog

  /** `PluginSpec`: a plugin given as a jar file or as a resolved Maven coordinate. */
  datatype PluginSpec =
    | Jar(file: VirtualFile)
    | Maven(plug: P.DetektPlugin)

  /** The jar specs of the chosen files, in order. */
  function Jars(files: seq<VirtualFile>): (r: seq<PluginSpec>)
    ensures |r| == |files|
    ensures forall i :: 0 <= i < |files| ==> r[i] == Jar(files[i])
  {
    seq(|files|, i requires 0 <= i < |files| => Jar(files[i]))
  }

  /** `PluginsListPanel.PluginListModel`. */
  class PluginListModel {
    var items: seq<PluginSpec>

    constructor(initialItems: seq<PluginSpec>)
      ensures items == initialItems
    {
      items := initialItems;
    }

    /** `+= newItem`. */
    method AddItem(newItem: PluginSpec)
      modifies this
      ensures items == old(items) + [newItem]
    {
      items := items + [newItem];
    }

    /** `+= newItems`. */
    method AddItems(newItems: seq<PluginSpec>)
      modifies this
      ensures items == old(items) + newItems
    {
      items := items + newItems;
    }

    /**
     * `removeAt(indices)`: nothing for no indices, otherwise the indices are
     * removed from the largest down, each in the list as it is at that moment.
     */
    method RemoveAt(indices: seq<int>)
      requires RemovableInOrder(items, DescendingIndices(indices))
      modifies this
      ensures items == RemoveEach(old(items), DescendingIndices(indices)).remaining
      ensures Distinct(indices) && ValidPositions(old(items), indices) ==> items == Without(old(items), Elements(indices))
    {
      if Distinct(indices) && ValidPositions(items, indices) {
        RemoveSortedDescending(items, indices);
      }
      if indices == [] {
        return;
      }
      var order := DescendingIndices(indices);
      var i := 0;
      while i < |order|
        invariant 0 <= i <= |order|
        invariant RemovableInOrder(items, order[i..])
        invariant RemoveEach(old(items), order).remaining == RemoveEach(items, order[i..]).remaining
      {
        assert order[i..][1..] == order[i + 1..];
        RemoveEachStep(items, order[i..], []);
        items := RemoveOne(items, order[i]);
        i := i + 1;
      }
      assert order[i..] == [];
    }
  }

  /** `PluginsListPanel`: the add-jar, add-Maven and remove buttons over one list model. */
  class PluginsListPanel {
    const listModel: PluginListModel

    constructor(listModel: PluginListModel)
      ensures this.listModel == listModel
    {
      this.listModel := listModel;
    }

    /** `onRemoveClick` with the list's selected indices: exactly those positions go. */
    method OnRemoveClick(selected: seq<int>)
      requires Distinct(selected) && ValidPositions(listModel.items, selected)
      modifies listModel
      ensures listModel.items == Without(old(listModel.items), Elements(selected))
    {
      RemoveSortedDescending(listModel.items, selected);
      listModel.RemoveAt(selected);
    }

    /** `onAddJarClick` with the files the chooser returned: each jar not yet listed is appended. */
    method OnAddJarClick(files: seq<VirtualFile>)
      modifies listModel
      ensures listModel.items == AppendNew(old(listModel.items), Jars(files))
      ensures Distinct(old(listModel.items)) ==> Distinct(listModel.items)
    {
      AppendNewSpec(listModel.items, Jars(files));
      var specs := Jars(files);
      var i := 0;
      while i < |files|
        invariant 0 <= i <= |files|
        invariant listModel.items == AppendNew(old(listModel.items), specs[..i])
      {
        var spec := Jar(files[i]);
        assert specs[..i + 1][..i] == specs[..i];
        if spec !in listModel.items {
          listModel.AddItem(spec);
        }
        i := i + 1;
      }
      assert specs[..i] == specs;
    }

    /**
     * `onAddMavenClick`, with the search dialog as the user left it and
     * whether they confirmed it: the dialog's result is appended unless it
     * is already listed.
     */
    method OnAddMavenClick(dialog: MavenSearchDialog.Dialog, confirmed: bool)
      modifies listModel
      ensures var result := dialog.GetResult();
        listModel.items
          == if confirmed && result.Some? then AppendNew(old(listModel.items), [Maven(result.value)])
             else old(listModel.items)
    {
      if confirmed {
        var result := dialog.GetResult();
        if result.Some? {
          var spec := Maven(result.value);
          assert [spec][..0] == [];
          if spec !in listModel.items {
            listModel.AddItem(spec);
          }
        }
      }
    }
  }
}
