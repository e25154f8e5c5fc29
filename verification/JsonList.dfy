/**
 * The elements of an array or object as nodes linked in both directions, where the prev of the first
 * node is the last one.
 */
module JsonList {
  class Node {
    var next: Node?
    var prev: Node?
    var child: Node?

    constructor ()
      ensures next == null && prev == null && child == null
    {
      next, prev, child := null, null, null;
    }
  }

  ghost predicate Distinct(s: seq<Node>) {
    forall i, j :: 0 <= i < j < |s| ==> s[i] != s[j]
  }

  /** Node i is followed by the next one, or by nothing. */
  ghost predicate NextAt(s: seq<Node>, i: nat)
    requires i < |s|
    reads s[i]
  {
    s[i].next == if i + 1 < |s| then s[i + 1] else null
  }

  /** Node i is preceded by the one before it, and the first by the last. */
  ghost predicate PrevAt(s: seq<Node>, i: nat)
    requires i < |s|
    reads s[i]
  {
    s[i].prev == if i > 0 then s[i - 1] else s[|s| - 1]
  }

  /** The nodes s are linked in order, and the last is found from the first. */
  ghost predicate Linked(s: seq<Node>)
    reads s
  {
    forall i :: 0 <= i < |s| ==> NextAt(s, i) && PrevAt(s, i)
  }

  /** The children of a node are s, in order. */
  ghost predicate Children(parent: Node, s: seq<Node>)
    reads parent, s
  {
    && Distinct(s) && parent !in s && Linked(s)
    && parent.child == if s == [] then null else s[0]
  }

  /** get_array_item */
  method GetArrayItem(parent: Node, index: nat, ghost s: seq<Node>) returns (r: Node?)
    requires Children(parent, s)
    ensures r == if index < |s| then s[index] else null
  {
    var i := index;
    ghost var k := 0;
    r := parent.child;
    while r != null && i > 0
      invariant 0 <= i <= index && k == index - i && k <= |s|
      invariant r == if k < |s| then s[k] else null
    {
      assert NextAt(s, k);
      i := i - 1;
      r := r.next;
      k := k + 1;
    }
  }

  /** cJSON_GetArraySize */
  method GetArraySize(parent: Node, ghost s: seq<Node>) returns (size: nat)
    requires Children(parent, s)
    ensures size == |s|
  {
    var child := parent.child;
    size := 0;
    while child != null
      invariant size <= |s| && child == if size < |s| then s[size] else null
      decreases |s| - size
    {
      assert NextAt(s, size);
      size := size + 1;
      child := child.next;
    }
  }

  /** suffix_object */
  method SuffixObject(prev: Node, item: Node)
    modifies prev`next, item`prev
    ensures prev.next == item && item.prev == prev
  {
    prev.next := item;
    item.prev := prev;
  }

  // ----- Broken lists -----

  /** What next leads to from the child on is the beginning of every list of children. */
  lemma Walk(parent: Node, u: seq<Node>, w: seq<Node>, k: nat)
    requires Children(parent, u) && k < |w| && parent.child == w[0]
    requires forall i :: 0 <= i < k ==> w[i].next == w[i + 1]
    ensures k < |u| && u[k] == w[k]
  {
    assert k == 0 ==> u != [] && u[0] == w[0];
    if k > 0 {
      Walk(parent, u, w, k - 1);
      assert NextAt(u, k - 1) && w[k - 1].next == w[k - 1 + 1];
    }
  }

  /** No list that comes back to a node, or to the parent, is a list of children. */
  lemma ComesBack(parent: Node, u: seq<Node>, w: seq<Node>, j: nat, k: nat)
    requires j < k < |w| && w[j] == w[k] && parent.child == w[0]
    requires forall i :: 0 <= i < k ==> w[i].next == w[i + 1]
    ensures !Children(parent, u)
  {
    if Children(parent, u) {
      Walk(parent, u, w, j);
      Walk(parent, u, w, k);
    }
  }

  /** The child leads to the last node, and that to none. */
  lemma ProperTail(parent: Node, u: seq<Node>)
    requires Children(parent, u) && parent.child != null
    ensures parent.child.prev == u[|u| - 1] && u[|u| - 1].next == null
  {
    assert PrevAt(u, 0) && NextAt(u, |u| - 1);
  }

  /**
   * add_item_to_array: appends.  An item that is in the list already, or still has a successor behind a list that is
   * not empty, leaves the parent without any proper list.
   */
  method AddItemToArray(parent: Node, item: Node?, ghost s: seq<Node>) returns (ok: bool)
    requires Children(parent, s)
    modifies parent`child, s, item
    ensures ok == (item != null && parent != item)
    ensures !ok ==> Children(parent, s)
    ensures ok && Appendable(s, item, old(item.next)) ==> Children(parent, s + [item])
    ensures ok && !Appendable(s, item, old(item.next)) ==> forall u: seq<Node> :: !Children(parent, u)
    ensures ok ==> item.next == if s != [] && item == s[|s| - 1] then item else if s == [] then null else old(item.next)
    ensures ok ==> parent.child == (if s == [] then item else s[0]) && (s != [] ==> s[|s| - 1].next == item)
  {
    if item == null || parent == item {
      return false;
    }
    var child := parent.child;
    ghost var u, n := s + [item], |s|;
    if child == null {
      parent.child := item;
      item.prev := item;
      item.next := null;
      assert NextAt(u, 0) && PrevAt(u, 0);
    } else {
      assert PrevAt(s, 0) && s[n - 1] in s;
      assert forall i :: 0 <= i < n ==> NextAt(s, i) && PrevAt(s, i);
      if child.prev != null {
        SuffixObject(child.prev, item);
        parent.child.prev := item;
      }
      if Appendable(s, item, old(item.next)) {
        forall i | 0 <= i < n
          ensures NextAt(u, i) && PrevAt(u, i)
        {
          assert old(NextAt(s, i) && PrevAt(s, i)) && s[i] in s;
          assert (i > 0 ==> s[0] != s[i]) && (i < n - 1 ==> s[i] != s[n - 1]);
          assert u[i] == s[i] && (i > 0 ==> u[i - 1] == s[i - 1]) && (i + 1 < n ==> u[i + 1] == s[i + 1]);
        }
        assert PrevAt(u, n) && NextAt(u, n);
      } else {
        if item in s {
          ghost var k :| 0 <= k < n && s[k] == item;
          assert old(NextAt(s, k));
        }
        forall v: seq<Node>
          ensures !Children(parent, v)
        {
          if Children(parent, v) {
            ProperTail(parent, v);
          }
        }
      }
    }
    ok := true;
  }

  /** When appending an item makes it the last of the list. */
  ghost predicate Appendable(s: seq<Node>, item: Node, next: Node?) {
    item !in s && (s == [] || next == null)
  }

  /** The last item appended once more points to itself. */
  method AppendedTwice() returns (parent: Node, item: Node)
    ensures parent.child == item && item.next == item && forall u: seq<Node> :: !Children(parent, u)
  {
    parent, item := NewList();
    var ok := AddItemToArray(parent, item, [item]);
  }

  /** A new parent with one new child. */
  method NewList() returns (parent: Node, item: Node)
    ensures fresh(parent) && fresh(item) && Children(parent, [item])
  {
    parent := new Node();
    item := new Node();
    var ok := AddItemToArray(parent, item, []);
    assert [] + [item] == [item];
  }

  /** The first of two children, appended to the children of another parent, still leads to the second. */
  method SuccessorAppended() returns (parent: Node, first: Node, item: Node, second: Node)
    ensures parent.child == first && first.next == item && item.next == second
    ensures forall u: seq<Node> :: !Children(parent, u)
  {
    var other;
    other, item := NewList();
    second := new Node();
    var ok := AddItemToArray(other, second, [item]);
    parent, first := NewList();
    ok := AddItemToArray(parent, item, [first]);
  }

  /** A list without its element k. */
  ghost function Without(s: seq<Node>, k: nat): (u: seq<Node>)
    requires k < |s|
    ensures |u| == |s| - 1
    ensures forall i :: 0 <= i < |u| ==> u[i] == if i < k then s[i] else s[i + 1]
  {
    s[..k] + s[k + 1..]
  }

  /** cJSON_DetachItemViaPointer, for the k-th child. */
  method DetachItemViaPointer(parent: Node, item: Node?, ghost s: seq<Node>, ghost k: nat) returns (r: Node?)
    requires Children(parent, s) && (item != null ==> k < |s| && item == s[k])
    modifies parent`child, s
    ensures r == item
    ensures item == null ==> Children(parent, s)
    ensures item != null ==> Children(parent, Without(s, k)) && item.next == null && item.prev == null
  {
    if item == null {
      return null;
    }
    ghost var n := |s|;
    assert NextAt(s, k) && PrevAt(s, k) && PrevAt(s, 0);
    if k > 0 {
      Differ(s, k - 1, k);
    }
    if item != parent.child {
      item.prev.next := item.next;
    }
    if item.next != null {
      item.next.prev := item.prev;
    }
    if item == parent.child {
      parent.child := item.next;
    } else if item.next == null {
      parent.child.prev := item.prev;
    }
    item.prev := null;
    item.next := null;
    r := item;
    ghost var u := Without(s, k);
    forall i | 0 <= i < |u|
      ensures NextAt(u, i) && PrevAt(u, i)
    {
      ghost var j := if i < k then i else i + 1;
      assert old(NextAt(s, j) && PrevAt(s, j)) && s[j] in s;
      Differ(s, j, k);
      Differ(s, j, 0);
      if k > 0 {
        Differ(s, j, k - 1);
      }
      if k + 1 < n {
        Differ(s, j, k + 1);
      }
    }
  }

  lemma DistinctInserted(s: seq<Node>, k: nat, x: Node)
    requires Distinct(s) && k <= |s| && x !in s
    ensures Distinct(Inserted(s, k, x)) && forall y :: y in Inserted(s, k, x) ==> y in s || y == x
  {
  }

  lemma Differ(s: seq<Node>, i: nat, j: nat)
    requires Distinct(s) && i < |s| && j < |s|
    ensures s[i] == s[j] <==> i == j
  {
  }

  /** cJSON_DetachItemFromArray */
  method DetachItemFromArray(parent: Node, which: int, ghost s: seq<Node>) returns (r: Node?)
    requires Children(parent, s)
    modifies parent`child, s
    ensures r == if 0 <= which < |s| then s[which] else null
    ensures r != null ==> r.next == null && r.prev == null
    ensures Children(parent, if 0 <= which < |s| then Without(s, which) else s)
  {
    if which < 0 {
      return null;
    }
    var item := GetArrayItem(parent, which, s);
    r := DetachItemViaPointer(parent, item, s, which);
  }

  /** A list with one element more, in front of element k. */
  ghost function Inserted(s: seq<Node>, k: nat, x: Node): (u: seq<Node>)
    requires k <= |s|
    ensures |u| == |s| + 1
    ensures forall i :: 0 <= i < |u| ==> u[i] == if i < k then s[i] else if i == k then x else s[i - 1]
  {
    s[..k] + [x] + s[k..]
  }

  lemma InsertUndoesDetach(s: seq<Node>, k: nat, x: Node)
    requires k <= |s|
    ensures Without(Inserted(s, k, x), k) == s
    ensures k < |s| ==> Inserted(Without(s, k), k, s[k]) == s
  {
    assert Without(Inserted(s, k, x), k) == s;
    if k < |s| {
      assert Inserted(Without(s, k), k, s[k]) == s;
    }
  }

  /** An item detached and inserted again at its index is where it was, be it the first, the last or the only one. */
  method DetachThenInsert(parent: Node, which: nat, ghost s: seq<Node>)
    requires Children(parent, s) && which < |s|
    modifies parent`child, s
    ensures Children(parent, s)
  {
    hide Distinct, Linked;
    var item := DetachItemFromArray(parent, which, s);
    WithoutLacks(s, which);
    var ok := InsertItemInArray(parent, which, item, Without(s, which));
    InsertUndoesDetach(s, which, item);
  }

  /** Detaching what was inserted leaves the list as it was. */
  method InsertThenDetach(parent: Node, which: nat, item: Node, ghost s: seq<Node>)
    requires Children(parent, s) && which <= |s| && item !in s && item != parent && item.next == null
    modifies parent`child, s, item
    ensures Children(parent, s) && item.next == null && item.prev == null
  {
    hide Distinct, Linked;
    DistinctInserted(s, which, item);
    var ok := InsertItemInArray(parent, which, item, s);
    var r := DetachItemFromArray(parent, which, Inserted(s, which, item));
    InsertUndoesDetach(s, which, item);
  }

  lemma WithoutLacks(s: seq<Node>, k: nat)
    requires Distinct(s) && k < |s|
    ensures s[k] !in Without(s, k) && forall x :: x in Without(s, k) ==> x in s
  {
  }

  /** When inserting an item makes it an element of the list. */
  ghost predicate Insertable(parent: Node, s: seq<Node>, which: nat, item: Node, next: Node?) {
    if which < |s| then item !in s && item != parent else Appendable(s, item, next)
  }

  /**
   * cJSON_InsertItemInArray: behind the last element this appends.  An item that is in the list already, the parent
   * itself, or an item appended with a successor leaves the parent without any proper list.
   */
  method InsertItemInArray(parent: Node, which: int, newitem: Node?, ghost s: seq<Node>) returns (ok: bool)
    requires Children(parent, s)
    modifies parent`child, s, newitem
    ensures ok == (which >= 0 && newitem != null && (which < |s| || newitem != parent))
    ensures !ok ==> Children(parent, s)
    ensures ok && Insertable(parent, s, which, newitem, old(newitem.next)) ==>
      Children(parent, Inserted(s, if which < |s| then which else |s|, newitem))
    ensures ok && newitem !in s ==>
      newitem.next == if which < |s| then s[which] else if s == [] then null else old(newitem.next)
    ensures ok && !Insertable(parent, s, which, newitem, old(newitem.next)) ==>
      forall u: seq<Node> :: !Children(parent, u)
  {
    hide Distinct;
    if which < 0 || newitem == null {
      return false;
    }
    var after_inserted := GetArrayItem(parent, which, s);
    if after_inserted == null {
      ok := AddItemToArray(parent, newitem, s);
      assert Inserted(s, |s|, newitem) == s + [newitem];
      return;
    }
    assert PrevAt(s, which);
    if after_inserted != parent.child && after_inserted.prev == null {
      return false;
    }
    LinkBefore(parent, after_inserted, newitem, s, which);
    ok := true;
  }

  /** The new item is linked in front of the k-th child. */
  method LinkBefore(parent: Node, after_inserted: Node, newitem: Node, ghost s: seq<Node>, ghost k: nat)
    requires Children(parent, s) && k < |s| && after_inserted == s[k]
    modifies parent`child, s, newitem
    ensures newitem !in s ==> newitem.next == s[k]
    ensures newitem !in s && newitem != parent ==> Children(parent, Inserted(s, k, newitem))
    ensures newitem in s || newitem == parent ==> forall u: seq<Node> :: !Children(parent, u)
  {
    hide Distinct;
    assert NextAt(s, k) && PrevAt(s, k);
    newitem.next := after_inserted;
    newitem.prev := after_inserted.prev;
    after_inserted.prev := newitem;
    if after_inserted == parent.child {
      parent.child := newitem;
    } else {
      newitem.prev.next := newitem;
    }
    forall i | 0 <= i < |s| && s[i] != newitem
      ensures (i != k - 1 ==> NextAt(s, i)) && (i != k ==> PrevAt(s, i))
    {
      assert old(NextAt(s, i) && PrevAt(s, i)) && s[i] in s;
      Differ(s, i, k);
      if k > 0 {
        Differ(s, i, k - 1);
      }
    }
    if k > 0 {
      Differ(s, 0, k);
      Differ(s, k - 1, k);
      assert old(NextAt(s, k - 1));
    }
    if newitem !in s && newitem != parent {
      InsertedOnce(parent, s, k, newitem);
    } else {
      forall v: seq<Node>
        ensures !Children(parent, v)
      {
        if newitem in s {
          ghost var j :| 0 <= j < |s| && s[j] == newitem;
          Differ(s, j, k);
          if k > 0 {
            Differ(s, j, k - 1);
          }
          InsertedTwice(parent, v, s, k, j);
        } else {
          InsertedParent(parent, v, s, k);
        }
      }
    }
  }

  /** Where a new item was linked in front of child k. */
  lemma InsertedOnce(parent: Node, s: seq<Node>, k: nat, x: Node)
    requires Distinct(s) && k < |s| && x !in s && x != parent && parent !in s
    requires x.next == s[k] && x.prev == (if k > 0 then s[k - 1] else s[|s| - 1])
    requires s[k].prev == x && (k > 0 ==> s[k - 1].next == x) && parent.child == if k == 0 then x else s[0]
    requires forall i :: 0 <= i < |s| ==> (i != k - 1 ==> NextAt(s, i)) && (i != k ==> PrevAt(s, i))
    ensures Children(parent, Inserted(s, k, x))
  {
    hide Distinct;
    DistinctInserted(s, k, x);
    var u := Inserted(s, k, x);
    forall i | 0 <= i < |u|
      ensures NextAt(u, i) && PrevAt(u, i)
    {
      if i != k {
        var j := if i < k then i else i - 1;
        assert (j != k - 1 ==> NextAt(s, j)) && (j != k ==> PrevAt(s, j));
      }
    }
  }

  /** Where the parent was linked in front of its own child k. */
  lemma InsertedParent(parent: Node, u: seq<Node>, s: seq<Node>, k: nat)
    requires k < |s| && parent.child == if k == 0 then parent else s[0]
    requires forall i :: 0 <= i < |s| && i != k - 1 ==> NextAt(s, i)
    requires k > 0 ==> s[k - 1].next == parent
    ensures !Children(parent, u)
  {
    var w := s[..k] + [parent];
    if Children(parent, u) {
      forall i | 0 <= i < k
        ensures w[i].next == w[i + 1]
      {
        assert i < k - 1 ==> NextAt(s, i) && w[i + 1] == s[i + 1];
      }
      Walk(parent, u, w, k);
    }
  }

  /** Where a node of a proper list leads back to. */
  lemma BackFrom(parent: Node, u: seq<Node>, j: nat)
    requires Children(parent, u) && j < |u|
    ensures u[j].prev == (if j > 0 then u[j - 1] else u[|u| - 1]) && u[|u| - 1].next == null
  {
    assert PrevAt(u, j) && NextAt(u, |u| - 1);
  }

  /** From the first child to child j, by way of child j in front of child k. */
  ghost function Around(s: seq<Node>, k: nat, j: nat): (w: seq<Node>)
    requires k <= j < |s|
    ensures |w| == j + 2
    ensures forall i :: 0 <= i < |w| ==> w[i] == if i < k then s[i] else if i == k then s[j] else s[i - 1]
  {
    s[..k] + [s[j]] + s[k..j + 1]
  }

  lemma AroundAt(s: seq<Node>, k: nat, j: nat, i: nat)
    requires k <= j < |s| && i < j + 2
    ensures |Around(s, k, j)| == j + 2
    ensures Around(s, k, j)[i] == if i < k then s[i] else if i == k then s[j] else s[i - 1]
  {
  }

  lemma InsertedInFront(parent: Node, u: seq<Node>, s: seq<Node>, k: nat, j: nat)
    requires Distinct(s) && k <= j < |s| && s[j].next == s[k]
    requires forall i :: 0 <= i < |s| && i != k - 1 && s[i] != s[j] ==> NextAt(s, i)
    requires k > 0 ==> s[k - 1].next == s[j]
    requires parent.child == if k == 0 then s[j] else s[0]
    ensures !Children(parent, u)
  {
    hide Around, Distinct;
    var w := Around(s, k, j);
    AroundAt(s, k, j, 0);
    AroundAt(s, k, j, k);
    AroundAt(s, k, j, j + 1);
    forall i | 0 <= i < j + 1
      ensures w[i].next == w[i + 1]
    {
      AroundAt(s, k, j, i);
      AroundAt(s, k, j, i + 1);
      Differ(s, if i <= k then i else i - 1, j);
      assert i < k - 1 ==> NextAt(s, i);
      assert i > k ==> NextAt(s, i - 1);
    }
    ComesBack(parent, u, w, k, j + 1);
  }

  /** Where child j was linked once more, in front of child k. */
  lemma InsertedTwice(parent: Node, u: seq<Node>, s: seq<Node>, k: nat, j: nat)
    requires Distinct(s) && k < |s| && j < |s|
    requires s[j].next == if j == k - 1 then s[j] else s[k]
    requires forall i :: 0 <= i < |s| && i != k - 1 && s[i] != s[j] ==> NextAt(s, i)
    requires k > 0 ==> s[k - 1].next == s[j]
    requires parent.child == if k == 0 then s[j] else s[0]
    requires j < k - 1 ==> s[j].prev == s[k - 1]
    ensures !Children(parent, u)
  {
    if j >= k {
      InsertedInFront(parent, u, s, k, j);
    } else if j == k - 1 {
      var w := s[..k] + [s[j]];
      forall i | 0 <= i < k
        ensures w[i].next == w[i + 1]
      {
        assert i < k - 1 ==> NextAt(s, i) && w[i + 1] == s[i + 1];
      }
      ComesBack(parent, u, w, j, k);
    } else {
      assert forall i :: 0 <= i < j ==> NextAt(s, i);
      var i := if j > 0 then j - 1 else 0;
      Differ(s, i, k - 1);
      if Children(parent, u) {
        Walk(parent, u, s, i);
        Walk(parent, u, s, j);
        BackFrom(parent, u, j);
      }
    }
  }

  /**
   * cJSON_ReplaceItemViaPointer, for the k-th child; the one replaced is unlinked.  Another child cannot take its
   * place.
   */
  method ReplaceItemViaPointer(parent: Node, item: Node, replacement: Node?, ghost s: seq<Node>, ghost k: nat)
    returns (ok: bool)
    requires Children(parent, s) && k < |s| && item == s[k]
    modifies parent`child, s, replacement
    ensures ok == (replacement != null)
    ensures !ok ==> Children(parent, s)
    ensures ok ==>
      (Children(parent, s[k := replacement]) <==> replacement == item || (replacement !in s && replacement != parent))
    ensures ok && replacement != item ==> item.next == null && item.prev == null
  {
    if parent.child == null || replacement == null {
      return false;
    }
    if replacement == item {
      assert s[k := item] == s;
      return true;
    }
    ghost var n := |s|;
    assert NextAt(s, k) && PrevAt(s, k) && PrevAt(s, 0);
    replacement.next := item.next;
    replacement.prev := item.prev;
    if replacement.next != null {
      replacement.next.prev := replacement;
    }
    if parent.child == item {
      if parent.child.prev == parent.child {
        replacement.prev := replacement;
      }
      parent.child := replacement;
    } else {
      if replacement.prev != null {
        replacement.prev.next := replacement;
      }
      if replacement.next == null {
        parent.child.prev := replacement;
      }
    }
    item.next := null;
    item.prev := null;
    ok := true;
    ghost var u := s[k := replacement];
    assert u[k] == replacement && (k > 0 ==> u[0] == s[0]);
    if replacement in s || replacement == parent {
      Replaced(parent, s, k, replacement);
    } else {
      forall i | 0 <= i < |u|
        ensures NextAt(u, i) && PrevAt(u, i)
      {
        assert old(NextAt(s, i) && PrevAt(s, i)) && s[i] in s;
        Differ(s, i, k);
        Differ(s, i, 0);
        if k > 0 {
          Differ(s, i, k - 1);
        }
        if k + 1 < n {
          Differ(s, i, k + 1);
        }
      }
    }
  }

  lemma Replaced(parent: Node, s: seq<Node>, k: nat, x: Node)
    requires Distinct(s) && k < |s| && s[k] != x && (x in s || x == parent)
    ensures !Children(parent, s[k := x])
  {
    var u := s[k := x];
    assert u[k] == x;
    if x in s {
      var j :| 0 <= j < |s| && s[j] == x;
      assert u[j] == x && j != k;
    }
  }
}
