/** The index of a directory as it is stored: each operation opens the B+tree of the directory
    (nvfuse_core.c). It does to the contents of the tree what Directory does to a finite map. */
module DirectoryIndex {
  import opened BpPairs
  import opened BpTree
  import D = Directory

  /** nvfuse_set_dir_indexing. */
  method SetIndexing(m: Master, key: nat, offset: nat)
    requires m.Valid() && 0 < key <= MAX_KEY
    modifies m
    ensures m.Valid() && D.ItemSet(old(m.Contents()), m.Contents(), key, offset)
  {
    hide m.Sound, m.Contents;
    hide BpTree.StackOk;
    EmptyStack(m.nodes, m.root, m.height);
    var res, cur := m.InsertKey(key, offset % D.OFFSET_LIMIT, false);
    if res < 0 {
      var c := cur / D.OFFSET_LIMIT + 1;
      D.CountWraps(c);
      EmptyStack(m.nodes, m.root, m.height);
      var found := m.UpdateKey(key, c * D.OFFSET_LIMIT % D.U32);
    }
  }

  /** nvfuse_get_dir_indexing, for a name other than "." and "..". */
  method GetIndexing(m: Master, key: nat) returns (found: bool, offset: nat)
    requires m.Valid() && 0 < key <= MAX_KEY
    modifies m
    ensures m.Valid() && m.Contents() == old(m.Contents())
    ensures found == (key in m.Contents()) && (found ==> offset == D.ReadItem(m.Contents()[key]))
  {
    hide m.Sound, m.Contents;
    hide BpTree.StackOk;
    EmptyStack(m.nodes, m.root, m.height);
    var index;
    index, offset := m.FindKey(key);
    found := index >= 0;
    if found {
      offset := if offset / D.OFFSET_LIMIT != 0 then 0 else offset % D.OFFSET_LIMIT;
    }
  }

  /** nvfuse_del_dir_indexing, when the leaf of the key does not become empty. */
  method DelIndexing(m: Master, key: nat)
    requires m.Valid() && 0 < key <= MAX_KEY
    requires key in m.Contents() ==> m.height == 0 || LeafWidth(m.nodes, m.Top(), key, m.height) >= 2
    modifies m
    ensures m.Valid() && D.ItemDropped(old(m.Contents()), m.Contents(), key)
  {
    hide m.Sound, m.Contents;
    hide BpTree.StackOk;
    EmptyStack(m.nodes, m.root, m.height);
    var index, offset := m.FindKey(key);
    if index < 0 {
      return;
    }
    EmptyStack(m.nodes, m.root, m.height);
    var c := offset / D.OFFSET_LIMIT;
    if c == 0 {
      var res := m.RemoveKey(key);
    } else {
      var found := m.UpdateKey(key, (c - 1) * D.OFFSET_LIMIT + offset % D.OFFSET_LIMIT);
    }
  }
}
