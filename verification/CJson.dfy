// The cJSON items on the heap: ownership of children and strings.

module CJson {
  import opened Common
  import opened JsonText

  datatype Kind = KFalse | KTrue | KNull | KNumber | KString | KArray | KObject

  // The buffer `a` holds the C string `s`.
  ghost predicate Holds(a: array?<char>, s: string)
    reads a
  {
    && a != null && |s| < a.Length
    && a[..|s|] == s && a[|s|] == '\0' && '\0' !in s
  }

  // The list that starts at `head` consists of `xs`, linked both ways.
  ghost predicate Linked(head: Item?, xs: seq<Item>)
    reads xs`next, xs`prev
  {
    if xs == [] then head == null
    else
      && head == xs[0] && xs[0].prev == null && xs[|xs| - 1].next == null
      && (forall i {:trigger xs[i].next} :: 0 <= i < |xs| - 1 ==> xs[i].next == xs[i + 1])
      && (forall i {:trigger xs[i].prev} :: 0 < i < |xs| ==> xs[i].prev == xs[i - 1])
  }

  // No object is owned by two of the items.
  ghost predicate Apart(xs: seq<Item>)
    reads xs`foot
  {
    forall i, j :: 0 <= i < j < |xs| ==> xs[i].foot !! xs[j].foot
  }

  // Everything the items own.
  ghost function Feet(xs: seq<Item>): (f: set<object>)
    reads xs`foot
  {
    set x, o | x in xs && o in x.foot :: o
  }

  class Item {
    var next: Item?
    var prev: Item?
    var child: Item?
    var kind: Kind
    var isReference: bool
    var valuestring: array?<char>
    var valueint: int
    var name: array?<char>

    ghost var kids: seq<Item>    // the children this item owns, in order
    ghost var foot: set<object>  // everything that deleting this item frees

    // A zeroed node.
    constructor ()
      ensures next == null && prev == null && name == null && kind == KFalse && valueint == 0
      ensures Blank() && foot == {this}
      ensures forall o: object {:trigger o in foot} :: fresh(o) ==> o in foot
    {
      next, prev, child := null, null, null;
      kind, isReference := KFalse, false;
      valuestring, valueint, name := null, 0, null;
      kids, foot := [], {this};
    }

    ghost function Strings(): set<object>
      reads this`valuestring, this`name, this`isReference
    {
      (if valuestring == null || isReference then {} else {valuestring}) + (if name == null then {} else {name})
    }

    // The node has a name at most.
    ghost predicate Blank()
      reads this`child, this`isReference, this`valuestring, this`name, this`kids, this`foot
    {
      child == null && valuestring == null && !isReference && kids == [] && foot == {this} + Strings()
    }

    // This item owns its strings and its children, each of which owns its
    // own; a reference owns its name only.  The links of the item itself
    // belong to the list it is in and play no part.
    ghost predicate Owns()
      reads this`child, this`isReference, this`valuestring, this`name, this`kids, this`foot, foot - {this}
      decreases foot
    {
      && this in foot
      && (forall k :: k in kids ==> k in foot && k != this && k.foot <= foot - {this})
      && (if isReference then kids == [] else Linked(child, kids))
      && Apart(kids)
      && (forall k :: k in kids ==> k.Owns())
      && foot == {this} + Strings() + Feet(kids)
      && Strings() !! Feet(kids)
      && (valuestring != null && !isReference ==> valuestring != name)
    }

    // The tree below this item is the value `v`.
    ghost predicate Denotes(v: Json)
      requires Owns()
      reads this`kind, this`valueint
      reads this`child, this`isReference, this`valuestring, this`name, this`kids, this`foot, foot - {this}
      decreases v
    {
      && !isReference
      && match v
         case Null => kind == KNull
         case False => kind == KFalse
         case True => kind == KTrue
         case Number(n) => kind == KNumber && valueint == n
         case String(s) => kind == KString && Holds(valuestring, s)
         case Array(items) =>
           && kind == KArray && |kids| == |items|
           && forall i :: 0 <= i < |kids| ==> kids[i].Denotes(items[i])
         case Object(members) =>
           && kind == KObject && |kids| == |members|
           && forall i :: 0 <= i < |kids| ==> kids[i].Denotes(members[i].value) && Holds(kids[i].name, members[i].name)
    }

    lemma BlankOwns()
      requires Blank()
      ensures Owns()
    {
    }

    lemma OwnsName()
      requires Owns()
      ensures name != null ==> name in foot
    {
    }

    // What Owns says, part by part.
    lemma Parts()
      requires Owns()
      ensures this in foot && this !in Feet(kids) && Feet(kids) <= foot
      ensures isReference ==> kids == []
      ensures !isReference ==> Linked(child, kids) && (child == null <==> kids == [])
      ensures Apart(kids) && Distinct(kids)
      ensures forall k :: k in kids ==> k.Owns() && k in k.foot && k in foot && k.foot <= foot - {this}
      ensures forall i, j | 0 <= i < |kids| && 0 <= j < |kids| && i != j :: kids[i] !in kids[j].foot
      ensures foot == {this} + Strings() + Feet(kids) && Strings() !! Feet(kids)
      ensures valuestring != null && !isReference ==> valuestring != name
    {
      KidsDistinct(kids);
    }

    // What the pointer operations need to know.
    lemma ListParts()
      requires Owns() && !isReference
      ensures Linked(child, kids) && (child == null <==> kids == []) && (kids != [] ==> child == kids[0])
      ensures Distinct(kids) && AllOwn(kids) && Separate(kids) && this in foot && this !in kids
      ensures forall k :: k in kids ==> k in foot && k.foot <= foot - {this}
    {
      KidsDistinct(kids);
      SeparateKids(kids);
    }

    lemma Whole()
      requires !isReference && Linked(child, kids) && Apart(kids)
      requires forall k :: k in kids ==> k.Owns() && k in k.foot
      requires this !in Feet(kids) && foot == {this} + Strings() + Feet(kids)
      requires Strings() !! Feet(kids) && (valuestring != null ==> valuestring != name)
      ensures Owns()
    {
    }

    // ---------- List operations -------------------------------------------

    // The number of children, counted along the list; a reference shares the
    // list of the item it refers to.
    method GetArraySize(ghost xs: seq<Item>) returns (n: nat)
      requires Linked(child, xs)
      ensures n == |xs|
    {
      n := Length(child, xs);
    }

    // The child at an index; a negative index gives the first child.
    method GetArrayItem(ghost xs: seq<Item>, item: int) returns (c: Item?)
      requires Linked(child, xs)
      ensures c == (if Position(item) < |xs| then xs[Position(item)] else null)
    {
      c := Nth(child, xs, item);
    }

    // For an item that owns its children these are the `kids`.
    lemma OwnList()
      requires Owns() && !isReference
      ensures Linked(child, kids)
    {
    }

    // Append one detached item.
    method AddItemToArray(item: Item?)
      requires Owns() && !isReference
      requires item != null ==> item.Owns() && item.foot !! foot && item.next == null && item.prev == null
      modifies this`child, this`kids, this`foot, kids`next, (if item == null then {} else {item})`prev
      ensures Owns()
      ensures item == null ==> kids == old(kids) && foot == old(foot)
      ensures item != null ==> kids == old(kids) + [item] && foot == old(foot) + item.foot && item.Owns()
    {
      hide Item.Owns, Linked, Apart, Feet;
      if item == null { return; }
      Parts();
      HangLast(item);
      Adopt(item);
    }

    // The pointer part: find the end of the list and hang the item there.
    method HangLast(item: Item)
      requires Owns() && !isReference
      requires item.Owns() && item.foot !! foot && item.next == null && item.prev == null
      modifies this`child, kids`next, item`prev
      ensures Awaits(item) && item.Owns() && LinksOnly(kids)
    {
      hide Item.Owns, Linked, Feet, Apart, AllOwn;
      ListParts();
      if child == null {
        HangBehind(null, item);
      } else {
        var c := LastOf(child, kids);
        HangBehind(c, item);
      }
    }

    method HangBehind(last: Item?, item: Item)
      requires Owns() && !isReference
      requires last == if kids == [] then null else kids[|kids| - 1]
      requires item.Owns() && item.foot !! foot && item.next == null && item.prev == null
      modifies this`child, kids`next, item`prev
      ensures Awaits(item) && item.Owns() && LinksOnly(kids)
      ensures forall o: object {:trigger o in foot} :: fresh(o) ==> o in foot
    {
      hide Item.Owns, Linked, Feet, Apart, AllOwn;
      Parts();
      ListParts();
      item.Parts();
      if last == null {
        child := item;
        LinkedSingle(item);
        assert kids + [item] == [item];
      } else {
        LinkBehind(kids, last, item, this);
      }
      forall i | 0 <= i < |kids| ensures LinkOnly(kids[i]) {}
      Relinked(kids);
    }

    // All is in order but that `item` hangs at the end of the list without
    // being one of the kids.
    ghost predicate Awaits(item: Item)
      reads this, kids, set x, o | x in kids && o in x.foot :: o
      reads item`next, item`prev
    {
      && !isReference && Linked(child, kids + [item]) && AllOwn(kids)
      && this !in Feet(kids) && Apart(kids) && foot == {this} + Strings() + Feet(kids)
      && Strings() !! Feet(kids) && (valuestring != null ==> valuestring != name)
    }

    // The ghost part: the item and all it owns now belong to this item.
    ghost method Adopt(item: Item)
      requires Awaits(item) && item.Owns() && item.foot !! foot
      modifies this`kids, this`foot
      ensures Owns() && kids == old(kids) + [item] && foot == old(foot) + item.foot && item.Owns()
      ensures forall o: object {:trigger o in foot} :: fresh(o) ==> o in foot
    {
      hide Item.Owns, Linked, Feet, Apart;
      OwnSelf(kids);
      item.Parts();
      FeetAppend(kids, item);
      kids := kids + [item];
      foot := foot + item.foot;
      Whole();
    }

    // Take the item at a position out of the list; null when there is none.
    method DetachItemFromArray(which: int) returns (c: Item?)
      requires Owns() && !isReference
      modifies this`child, this`kids, this`foot, kids`next, kids`prev
      ensures Owns()
      ensures c == null <==> Position(which) >= |old(kids)|
      ensures c == null ==> kids == old(kids) && foot == old(foot)
      ensures c != null ==>
        && c == old(kids)[Position(which)] && kids == Without(old(kids), Position(which))
        && c.next == null && c.prev == null && c.Owns()
        && foot == old(foot) - c.foot && c.foot <= old(foot)
    {
      hide Item.Owns, Linked, Apart, Feet;
      Parts();
      c := Nth(child, kids, which);
      if c == null { return; }
      TakeOut(Position(which), c);
      Disown(Position(which));
    }

    // The pointer part of detaching.
    method TakeOut(ghost k: nat, c: Item)
      requires Owns() && !isReference && k < |kids| && c == kids[k]
      modifies this`child, kids`next, kids`prev
      ensures Linked(child, Without(kids, k)) && AllOwn(kids)
      ensures c.next == null && c.prev == null
    {
      hide Item.Owns, Linked, Feet, Apart, AllOwn;
      ListParts();
      child := Unlink(child, kids, k, c);
      forall i | 0 <= i < |kids| ensures LinkOnly(kids[i]) {}
      Relinked(kids);
    }

    // The ghost part of detaching.
    ghost method Disown(k: nat)
      requires !isReference && k < |kids| && Linked(child, Without(kids, k)) && AllOwn(kids)
      requires this !in Feet(kids) && Apart(kids) && foot == {this} + Strings() + Feet(kids)
      requires Strings() !! Feet(kids) && (valuestring != null ==> valuestring != name)
      modifies this`kids, this`foot
      ensures Owns() && kids == Without(old(kids), k)
      ensures var c := old(kids)[k]; c.Owns() && foot == old(foot) - c.foot && c.foot <= old(foot)
    {
      hide Item.Owns, Linked, Feet, Apart;
      OwnSelf(kids);
      FeetWithout(kids, k);
      kids := Without(kids, k);
      foot := foot - old(kids)[k].foot;
      Whole();
    }

    // Append a node that shares the strings and children of `item` but owns
    // none of them.
    method AddItemReferenceToArray(item: Item)
      requires Owns() && !isReference
      modifies this`child, this`kids, this`foot, kids`next
      ensures Owns() && |kids| == |old(kids)| + 1 && kids[..|old(kids)|] == old(kids)
      ensures var ref := kids[|old(kids)|];
        && fresh(ref) && foot == old(foot) + {ref} && ref.isReference
        && ref.kind == item.kind && ref.valueint == item.valueint
        && ref.valuestring == item.valuestring && ref.child == old(item.child)
    {
      var ref := CreateReference(item);
      AddItemToArray(ref);
    }

    // Put `newitem` at a position in place of the item there, which is
    // deleted; nothing happens when there is none.
    method ReplaceItemInArray(which: int, newitem: Item, heap: Heap)
      requires Owns() && !isReference && newitem.Owns() && newitem.foot !! foot
      requires foot !! heap.freed && heap !in foot && heap !in newitem.foot
      modifies this`child, this`kids, this`foot, kids`next, kids`prev, newitem`next, newitem`prev, heap
      ensures Owns()
      ensures Position(which) >= |old(kids)| ==>
        kids == old(kids) && foot == old(foot) && heap.freed == old(heap.freed)
      ensures Position(which) < |old(kids)| ==>
        var c := old(kids)[Position(which)];
        && kids == old(kids)[Position(which) := newitem]
        && foot == old(foot) - old(c.foot) + newitem.foot
        && heap.freed == old(heap.freed) + old(c.foot)
    {
      hide Item.Owns, Linked, Apart, Feet;
      Parts();
      var c := Nth(child, kids, which);
      if c == null { return; }
      PutIn(Position(which), c, newitem);
      Trade(Position(which), newitem);
      SingleList(c);
      Delete(c, [c], heap);
    }

    method PutIn(ghost k: nat, c: Item, newitem: Item)
      requires Owns() && !isReference && k < |kids| && c == kids[k]
      requires newitem.Owns() && newitem.foot !! foot
      modifies this`child, kids`next, kids`prev, newitem`next, newitem`prev
      ensures Linked(child, kids[k := newitem]) && AllOwn(kids) && newitem.Owns()
      ensures c.next == null
    {
      hide Item.Owns, Linked, Feet, Apart, AllOwn;
      ListParts();
      newitem.Parts();
      child := Exchange(child, kids, k, c, newitem);
      forall i | 0 <= i < |kids| ensures LinkOnly(kids[i]) {}
      Relinked(kids);
    }

    ghost method Trade(k: nat, newitem: Item)
      requires !isReference && k < |kids| && Linked(child, kids[k := newitem]) && AllOwn(kids) && newitem.Owns()
      requires this !in Feet(kids) && Apart(kids) && foot == {this} + Strings() + Feet(kids)
      requires Strings() !! Feet(kids) && (valuestring != null ==> valuestring != name)
      requires newitem.foot !! foot
      modifies this`kids, this`foot
      ensures Owns() && kids == old(kids)[k := newitem] && AllOwn(old(kids))
      ensures foot == old(foot) - old(kids)[k].foot + newitem.foot
    {
      hide Item.Owns, Linked, Feet, Apart;
      OwnSelf(kids);
      newitem.Parts();
      FeetReplace(kids, k, newitem);
      kids := kids[k := newitem];
      foot := foot - old(kids)[k].foot + newitem.foot;
      Whole();
    }
  }

  method CreateReference(item: Item) returns (ref: Item)
    ensures fresh(ref) && ref.Owns() && ref.foot == {ref} && ref.isReference
    ensures ref.kind == item.kind && ref.valueint == item.valueint
    ensures ref.valuestring == item.valuestring && ref.child == item.child
    ensures ref.name == null && ref.next == null && ref.prev == null
  {
    ref := new Item();
    ref.kind, ref.valueint, ref.valuestring, ref.child := item.kind, item.valueint, item.valuestring, item.child;
    ref.isReference := true;
  }

  lemma FeetReplace(xs: seq<Item>, k: nat, x: Item)
    requires k < |xs| && Apart(xs) && x.foot !! Feet(xs)
    ensures Feet(xs[k := x]) == Feet(xs) - xs[k].foot + x.foot && Apart(xs[k := x])
  {
    var ys := xs[k := x];
    forall o | o in Feet(xs) - xs[k].foot + x.foot
      ensures o in Feet(ys)
    {
      if o in x.foot {
        assert ys[k] == x;
      } else {
        var i :| 0 <= i < |xs| && o in xs[i].foot;
        assert ys[i] == xs[i];
      }
    }
  }

  // Overwrite the links so that `newitem` stands where `c` stood.
  method Exchange(head: Item?, ghost xs: seq<Item>, ghost k: nat, c: Item, newitem: Item) returns (h: Item?)
    requires k < |xs| && c == xs[k] && Linked(head, xs) && Distinct(xs) && newitem !in xs
    modifies xs`next, xs`prev, newitem`next, newitem`prev
    ensures Linked(h, xs[k := newitem]) && c.next == null && c.prev == null
  {
    h := head;
    newitem.next := c.next;
    newitem.prev := c.prev;
    if newitem.next != null { newitem.next.prev := newitem; }
    if c == head { h := newitem; } else { newitem.prev.next := newitem; }
    c.next, c.prev := null, null;
  }

  // ---------- Deleting ------------------------------------------------------

  // The allocator, seen through what it has been given back.
  class Heap {
    ghost var freed: set<object>

    // Freeing demands an object not freed before.
    ghost method Free(o: object)
      requires o !in freed
      modifies this
      ensures freed == old(freed) + {o}
      ensures forall o: object {:trigger o in freed} :: fresh(o) ==> o in freed
    {
      freed := freed + {o};
    }
  }

  // `c` starts the chain of next pointers through `xs`.
  ghost predicate Chain(c: Item?, xs: seq<Item>)
    reads xs`next
  {
    if xs == [] then c == null
    else
      && c == xs[0] && xs[|xs| - 1].next == null
      && (forall i {:trigger xs[i].next} :: 0 <= i < |xs| - 1 ==> xs[i].next == xs[i + 1])
  }

  lemma SingleList(c: Item)
    requires c.Owns() && c.next == null
    ensures Chain(c, [c]) && Apart([c]) && AllOwn([c]) && Feet([c]) == c.foot
  {
  }

  // Free a list of items and everything below them.
  method Delete(c: Item?, ghost xs: seq<Item>, heap: Heap)
    requires Chain(c, xs) && Apart(xs) && AllOwn(xs)
    requires Feet(xs) !! heap.freed && heap !in Feet(xs)
    modifies heap
    ensures heap.freed == old(heap.freed) + Feet(xs)
    ensures forall o: object {:trigger o in heap.freed} :: fresh(o) ==> o in heap.freed
    decreases Feet(xs), 1
  {
    hide Item.Owns, Apart, Chain, Feet;
    var c' := c;
    ghost var i := 0;
    FeetNone(xs);
    NotOwned(heap, xs);
    ChainAt(c, xs, 0);
    while c' != null
      invariant 0 <= i <= |xs| && c' == (if i < |xs| then xs[i] else null)
      invariant heap.freed == old(heap.freed) + Feet(xs[..i])
      invariant AllOwn(xs)
      invariant forall o: object {:trigger o in heap.freed} :: fresh(o) ==> o in heap.freed
      decreases |xs| - i
    {
      FeetTake(xs, i);
      assert c' !in heap.freed;
      ChainAt(c, xs, i);
      var next := c'.next;
      DeleteOne(c', heap);
      c' := next;
      i := i + 1;
    }
    assert xs[..i] == xs;
  }

  lemma NotOwned(o: object, xs: seq<Item>)
    requires o !in Feet(xs)
    ensures forall x | x in xs :: o !in x.foot
  {
  }

  lemma FeetNone(xs: seq<Item>)
    ensures Feet(xs[..0]) == {}
  {
  }

  lemma ChainAt(c: Item?, xs: seq<Item>, i: nat)
    requires Chain(c, xs)
    ensures c == if xs == [] then null else xs[0]
    ensures i < |xs| ==> xs[i].next == if i + 1 < |xs| then xs[i + 1] else null
  {
  }

  // The body of the loop: the children, the strings and the node itself.
  method DeleteOne(c: Item, heap: Heap)
    requires c.Owns() && c.foot !! heap.freed && heap !in c.foot
    modifies heap
    ensures heap.freed == old(heap.freed) + c.foot
    ensures forall o: object {:trigger o in heap.freed} :: fresh(o) ==> o in heap.freed
    decreases c.foot, 0
  {
    hide Item.Owns, Apart, Feet;
    c.Parts();
    if !c.isReference && c.child != null {
      LinkedChain(c.child, c.kids);
      assert AllOwn(c.kids);
      Delete(c.child, c.kids, heap);
    } else {
      NoFeet(c.kids);
    }
    if !c.isReference && c.valuestring != null {
      heap.Free(c.valuestring);
    }
    if c.name != null {
      heap.Free(c.name);
    }
    heap.Free(c);
  }

  lemma LinkedChain(c: Item?, xs: seq<Item>)
    requires Linked(c, xs)
    ensures Chain(c, xs)
  {
  }

  lemma NoFeet(xs: seq<Item>)
    ensures xs == [] ==> Feet(xs) == {}
  {
  }

  lemma FeetTake(xs: seq<Item>, i: nat)
    requires i < |xs| && Apart(xs) && AllOwn(xs)
    ensures xs[i].Owns() && xs[i].foot <= Feet(xs) && xs[i] in xs[i].foot && xs[i].foot !! Feet(xs[..i])
    ensures Feet(xs[..i + 1]) == Feet(xs[..i]) + xs[i].foot
  {
    assert xs[..i + 1] == xs[..i] + [xs[i]];
  }

  ghost predicate AllOwn(xs: seq<Item>)
    reads xs, set x, o | x in xs && o in x.foot :: o
  {
    forall x | x in xs :: x.Owns()
  }

  lemma OwnSelf(xs: seq<Item>)
    requires AllOwn(xs)
    ensures forall x | x in xs :: x in x.foot && x.foot <= Feet(xs)
  {
  }

  // Nothing of the item or of what it owns has changed but perhaps its links.
  twostate predicate LinkOnly(x: Item)
    reads x, x.foot
  {
    && x.child == old(x.child) && x.isReference == old(x.isReference)
    && x.valuestring == old(x.valuestring) && x.name == old(x.name)
    && x.kids == old(x.kids) && x.foot == old(x.foot)
    && x.kind == old(x.kind) && x.valueint == old(x.valueint)
    && forall o | o in x.foot && o != x :: unchanged(o)
  }

  twostate predicate LinksOnly(xs: seq<Item>)
    reads xs, set x, o | x in xs && o in x.foot :: o
  {
    forall i | 0 <= i < |xs| :: LinkOnly(xs[i])
  }

  // Items of which only the links have changed own what they owned.
  twostate lemma Relinked(xs: seq<Item>)
    requires old(AllOwn(xs)) && LinksOnly(xs)
    ensures AllOwn(xs)
  {
    forall i | 0 <= i < |xs|
      ensures xs[i].Owns()
    {
      assert old(xs[i].Owns());
    }
  }

  lemma LinkedSingle(item: Item)
    requires item.next == null && item.prev == null
    ensures Linked(item, [item])
  {
  }

  method Length(head: Item?, ghost xs: seq<Item>) returns (n: nat)
    requires Linked(head, xs)
    ensures n == |xs|
  {
    var c := head;
    n := 0;
    while c != null
      invariant n <= |xs| && c == (if n < |xs| then xs[n] else null)
      decreases |xs| - n
    {
      n, c := n + 1, c.next;
    }
  }

  method Nth(head: Item?, ghost xs: seq<Item>, which: int) returns (c: Item?)
    requires Linked(head, xs)
    ensures c == (if Position(which) < |xs| then xs[Position(which)] else null)
  {
    c := head;
    var w := which;
    ghost var k := 0;
    while c != null && w > 0
      invariant k <= |xs| && c == (if k < |xs| then xs[k] else null)
      invariant w <= 0 ==> k == Position(which)
      invariant w > 0 ==> which == k + w
      decreases w
    {
      w, c, k := w - 1, c.next, k + 1;
    }
  }

  // The last item of the list.
  method LastOf(c: Item, ghost xs: seq<Item>) returns (last: Item)
    requires Linked(c, xs) && xs != []
    ensures last == xs[|xs| - 1]
  {
    last := c;
    ghost var i := 0;
    while last.next != null
      invariant 0 <= i < |xs| && last == xs[i]
      decreases |xs| - i
    {
      last, i := last.next, i + 1;
    }
  }

  // suffix_object: hang `item` behind the last item of a list.
  method LinkBehind(ghost xs: seq<Item>, last: Item, item: Item, ghost owner: Item)
    requires xs != [] && Linked(xs[0], xs) && last == xs[|xs| - 1] && Distinct(xs)
    requires item !in xs && item.next == null
    modifies last`next, item`prev
    ensures Linked(xs[0], xs + [item])
    ensures forall o: object {:trigger o in owner.foot} :: fresh(o) ==> o in owner.foot
  {
    last.next := item;
    item.prev := last;
  }

  // Take the k-th item out of the list and give the new head.
  method Unlink(head: Item?, ghost xs: seq<Item>, ghost k: nat, c: Item) returns (h: Item?)
    requires k < |xs| && c == xs[k] && Linked(head, xs) && Distinct(xs)
    modifies xs`next, xs`prev
    ensures Linked(h, Without(xs, k)) && c.next == null && c.prev == null
  {
    h := head;
    assert c == head <==> k == 0;
    if c.prev != null { c.prev.next := c.next; }
    if c.next != null { c.next.prev := c.prev; }
    if c == head { h := c.next; }
    c.prev, c.next := null, null;
  }

  ghost predicate Distinct(xs: seq<Item>) {
    forall i, j :: 0 <= i < j < |xs| ==> xs[i] != xs[j]
  }

  // A C index counted down to zero: negative indices act like 0.
  function Position(i: int): (n: nat)
    ensures i <= n && (n == i || n == 0)
  {
    if i < 0 then 0 else i
  }

  ghost function Without<T>(xs: seq<T>, k: nat): (ys: seq<T>)
    requires k < |xs|
    ensures |ys| == |xs| - 1 && forall i | 0 <= i < |ys| :: ys[i] == xs[if i < k then i else i + 1]
  {
    xs[..k] + xs[k + 1..]
  }

  // No item of the list is owned by another one.
  ghost predicate Separate(xs: seq<Item>)
    reads xs`foot
  {
    forall i, j | 0 <= i < |xs| && 0 <= j < |xs| && i != j :: xs[i] !in xs[j].foot
  }

  lemma SeparateKids(xs: seq<Item>)
    requires Apart(xs) && forall x | x in xs :: x in x.foot
    ensures Separate(xs)
  {
  }

  lemma FeetAppend(xs: seq<Item>, x: Item)
    requires Apart(xs) && x.foot !! Feet(xs)
    ensures Feet(xs + [x]) == Feet(xs) + x.foot && Apart(xs + [x])
  {
  }

  lemma KidsDistinct(xs: seq<Item>)
    requires Apart(xs) && forall x | x in xs :: x in x.foot
    ensures Distinct(xs)
    ensures forall i, j | 0 <= i < |xs| && 0 <= j < |xs| && i != j :: xs[i] !in xs[j].foot
  {
  }

  lemma FeetWithout(xs: seq<Item>, k: nat)
    requires k < |xs| && Apart(xs)
    ensures Feet(Without(xs, k)) == Feet(xs) - xs[k].foot
    ensures Apart(Without(xs, k))
  {
    forall o | o in Feet(xs) - xs[k].foot
      ensures o in Feet(Without(xs, k))
    {
      var i :| 0 <= i < |xs| && o in xs[i].foot;
      assert xs[i] == Without(xs, k)[if i < k then i else i - 1];
    }
  }
}
