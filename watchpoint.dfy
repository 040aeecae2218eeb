/** The debugger's watchpoint pool: 32 slots in a static array, threaded
    onto two singly linked lists, the active list (`head`) and the free list
    (`free_`). A new watchpoint takes the first free slot and becomes the
    first active one; a deleted one is unlinked from the active list and
    becomes the first free slot again. Links are slot indices, with -1 for
    the null pointer. */
module Watchpoint {

  /** Number of slots, `NR_WP`. */
  const NrWp: nat := 32

  /** Size of the stored expression text, `str_expr[32]`. */
  const ExprLen: nat := 32

  /** The null pointer. */
  const Null: int := -1

  /** One slot of the pool: its fixed number, the link to the next slot of
      its list, the expression text and the value last seen for it. */
  datatype Wp = Wp(no: int, next: int, strExpr: string, val: int)

  /** What `strncpy(dst, s, 32)` leaves as the text of `dst`: the first 32
      characters of `s` at most. */
  function Truncate(s: string, n: nat): (r: string)
    ensures |r| == (if |s| <= n then |s| else n)
    ensures r == s[..|r|]
  {
    if |s| <= n then s else s[..n]
  }

  predicate NoDup(s: seq<int>)
  {
    forall j, k :: 0 <= j < k < |s| ==> s[j] != s[k]
  }

  /** The slot indices lo, lo + 1, ..., hi - 1. */
  function Range(lo: int, hi: int): (r: seq<int>)
    requires lo <= hi
    decreases hi - lo
    ensures |r| == hi - lo
    ensures forall j :: 0 <= j < |r| ==> r[j] == lo + j
  {
    if lo == hi then [] else [lo] + Range(lo + 1, hi)
  }

  /** Position of the first occurrence of `x` in `s`. */
  function IndexOf(s: seq<int>, x: int): (k: nat)
    requires x in s
    ensures k < |s| && s[k] == x && forall j :: 0 <= j < k ==> s[j] != x
  {
    if s[0] == x then 0 else 1 + IndexOf(s[1..], x)
  }

  lemma IndexOfIs(s: seq<int>, x: int, k: nat)
    requires k < |s| && s[k] == x && forall j :: 0 <= j < k ==> s[j] != x
    ensures x in s && IndexOf(s, x) == k
  {
  }

  /** `s` without its element at position `k`. */
  function RemoveAt(s: seq<int>, k: nat): seq<int>
    requires k < |s|
  {
    s[..k] + s[k + 1..]
  }

  /** `s` is the list that starts at `first` and follows the `next` links
      of the slots `m` until the null pointer. */
  ghost predicate Linked(m: seq<Wp>, s: seq<int>, first: int)
  {
    (forall j :: 0 <= j < |s| ==> 0 <= s[j] < |m|) &&
    first == (if s == [] then Null else s[0]) &&
    (forall j :: 0 <= j < |s| - 1 ==> m[s[j]].next == s[j + 1]) &&
    (s != [] ==> m[s[|s| - 1]].next == Null)
  }

  /** Every slot index below `NrWp` is on exactly one of the two lists. */
  ghost predicate Partition(act: seq<int>, fl: seq<int>)
  {
    forall i :: 0 <= i < NrWp ==> (i in act <==> i !in fl)
  }

  /** The invariant of the pool: slot `i` has number `i`, the active list
      starts at `head` and the free list at `free`, neither repeats a slot,
      and together they hold every slot once. */
  ghost predicate PoolOk(m: seq<Wp>, act: seq<int>, fl: seq<int>, head: int, free: int)
  {
    |m| == NrWp &&
    (forall i :: 0 <= i < |m| ==> m[i].no == i) &&
    Linked(m, act, head) && Linked(m, fl, free) &&
    NoDup(act) && NoDup(fl) && Partition(act, fl)
  }

  /** The pool as `init_wp_pool` leaves it: slots numbered and chained in
      index order on the free list, no slot active. */
  lemma InitialPoolOk(m: seq<Wp>)
    requires |m| == NrWp
    requires forall j :: 0 <= j < NrWp ==> m[j].no == j && m[j].next == (if j == NrWp - 1 then Null else j + 1)
    ensures PoolOk(m, [], Range(0, NrWp), Null, 0)
  {
    var fl := Range(0, NrWp);
    forall i | 0 <= i < NrWp
      ensures i in fl
    {
      assert fl[i] == i;
    }
  }

  /** A list stays linked when no link of its own slots changes. */
  lemma LinkedFrame(m: seq<Wp>, m2: seq<Wp>, s: seq<int>, first: int)
    requires Linked(m, s, first) && |m2| == |m|
    requires forall j :: 0 <= j < |s| ==> m2[s[j]].next == m[s[j]].next
    ensures Linked(m2, s, first)
  {
  }

  /** Linking a new slot `x` in front of a list gives a list starting at `x`. */
  lemma LinkedPush(m: seq<Wp>, s: seq<int>, first: int, x: int)
    requires Linked(m, s, first) && 0 <= x < |m| && x !in s
    ensures Linked(m[x := m[x].(next := first)], [x] + s, x)
  {
    var m2 := m[x := m[x].(next := first)];
    LinkedFrame(m, m2, s, first);
    var t := [x] + s;
    assert forall j :: 1 <= j < |t| ==> t[j] == s[j - 1];
  }

  /** The rest of a list starts where its first slot points. */
  lemma LinkedPop(m: seq<Wp>, s: seq<int>, first: int)
    requires Linked(m, s, first) && s != []
    ensures Linked(m, s[1..], m[s[0]].next)
  {
    var t := s[1..];
    assert forall j :: 0 <= j < |t| ==> t[j] == s[j + 1];
  }

  /** Whatever is written to the first slot of a list, the rest of the list
      starts where that slot pointed. */
  lemma LinkedDropHead(m: seq<Wp>, s: seq<int>, first: int, v: Wp)
    requires Linked(m, s, first) && NoDup(s) && s != []
    ensures Linked(m[s[0] := v], RemoveAt(s, 0), m[s[0]].next)
  {
    var t := RemoveAt(s, 0);
    assert forall j :: 0 <= j < |t| ==> t[j] == s[j + 1] && s[j + 1] != s[0];
  }

  /** Pointing slot `s[k - 1]` past `s[k]` removes `s[k]` from the list. */
  lemma LinkedUnlink(m: seq<Wp>, s: seq<int>, first: int, k: nat)
    requires Linked(m, s, first) && NoDup(s) && 0 < k < |s|
    ensures Linked(m[s[k - 1] := m[s[k - 1]].(next := m[s[k]].next)], RemoveAt(s, k), first)
  {
    var m2 := m[s[k - 1] := m[s[k - 1]].(next := m[s[k]].next)];
    var t := RemoveAt(s, k);
    assert |t| == |s| - 1;
    assert forall j :: 0 <= j < k ==> t[j] == s[j];
    assert forall j :: k <= j < |t| ==> t[j] == s[j + 1];
    forall j | 0 <= j < |t| - 1
      ensures m2[t[j]].next == t[j + 1]
    {
      if j < k - 1 {
        assert s[j] != s[k - 1];
      } else if j >= k {
        assert s[j + 1] != s[k - 1];
      }
    }
    if k < |s| - 1 {
      assert s[|s| - 1] != s[k - 1];
    }
  }

  /** Only the last slot of a list links to the null pointer. */
  lemma LinkedEnd(m: seq<Wp>, s: seq<int>, first: int, k: nat)
    requires Linked(m, s, first) && k < |s|
    ensures m[s[k]].next == Null <==> k == |s| - 1
  {
    if k < |s| - 1 {
      assert m[s[k]].next == s[k + 1] && 0 <= s[k + 1];
    }
  }

  lemma NoDupRemoveAt(s: seq<int>, k: nat)
    requires NoDup(s) && k < |s|
    ensures NoDup(RemoveAt(s, k)) && s[k] !in RemoveAt(s, k)
    ensures forall x :: x in s <==> x in RemoveAt(s, k) || x == s[k]
  {
    var t := RemoveAt(s, k);
    assert forall j :: 0 <= j < |t| ==> t[j] == (if j < k then s[j] else s[j + 1]);
    forall x | x in s
      ensures x in t || x == s[k]
    {
      var i :| 0 <= i < |s| && s[i] == x;
      if i < k {
        assert t[i] == x;
      } else if i > k {
        assert t[i - 1] == x;
      }
    }
  }

  lemma NoDupCons(x: int, s: seq<int>)
    requires NoDup(s) && x !in s
    ensures NoDup([x] + s)
  {
    assert forall j :: 1 <= j < |[x] + s| ==> ([x] + s)[j] == s[j - 1];
  }

  /** Moving the first free slot to the active list keeps the partition. */
  lemma PartitionTake(act: seq<int>, fl: seq<int>)
    requires Partition(act, fl) && NoDup(fl) && fl != []
    ensures Partition([fl[0]] + act, fl[1..]) && NoDup(fl[1..])
  {
    NoDupRemoveAt(fl, 0);
    assert RemoveAt(fl, 0) == fl[1..];
  }

  /** Moving active slot `act[k]` to the front of the free list keeps the
      partition. */
  lemma PartitionGive(act: seq<int>, fl: seq<int>, k: nat)
    requires Partition(act, fl) && NoDup(act) && k < |act|
    ensures Partition(RemoveAt(act, k), [act[k]] + fl) && NoDup(RemoveAt(act, k))
  {
    NoDupRemoveAt(act, k);
  }

  /** Changing only the text and value of slots keeps the invariant. */
  lemma PoolOkSameLinks(m: seq<Wp>, m2: seq<Wp>, act: seq<int>, fl: seq<int>, head: int, free: int)
    requires PoolOk(m, act, fl, head, free) && |m2| == |m|
    requires forall i :: 0 <= i < |m| ==> m2[i].no == m[i].no && m2[i].next == m[i].next
    ensures PoolOk(m2, act, fl, head, free)
  {
    LinkedFrame(m, m2, act, head);
    LinkedFrame(m, m2, fl, free);
  }

  /** `new_wp` on the pure state: the first free slot, linked to the old
      head, becomes the first active slot. */
  lemma TakeFree(m: seq<Wp>, act: seq<int>, fl: seq<int>, head: int, free: int)
    requires PoolOk(m, act, fl, head, free) && fl != []
    ensures PoolOk(m[fl[0] := m[fl[0]].(next := head)], [fl[0]] + act, fl[1..], fl[0], m[fl[0]].next)
  {
    var x := fl[0];
    var m2 := m[x := m[x].(next := head)];
    assert x !in act;
    LinkedPush(m, act, head, x);
    LinkedPop(m, fl, free);
    PartitionTake(act, fl);
    LinkedFrame(m, m2, fl[1..], m[x].next);
    NoDupCons(x, act);
  }

  /** `free_wp` of the first active slot on the pure state. */
  lemma GiveHead(m: seq<Wp>, act: seq<int>, fl: seq<int>, head: int, free: int)
    requires PoolOk(m, act, fl, head, free) && act != []
    ensures PoolOk(m[act[0] := m[act[0]].(next := free)], RemoveAt(act, 0), [act[0]] + fl, m[act[0]].next, act[0])
  {
    var x := act[0];
    assert x !in fl;
    LinkedPush(m, fl, free, x);
    LinkedDropHead(m, act, head, m[x].(next := free));
    PartitionGive(act, fl, 0);
    NoDupCons(x, fl);
  }

  /** `free_wp` of the active slot after `act[k]` on the pure state: the
      predecessor skips it and it is linked in front of the free list. */
  lemma GiveAfter(m: seq<Wp>, act: seq<int>, fl: seq<int>, head: int, free: int, k: nat)
    requires PoolOk(m, act, fl, head, free) && k + 1 < |act|
    ensures var x := act[k + 1];
      var m1 := m[act[k] := m[act[k]].(next := m[x].next)];
      PoolOk(m1[x := m1[x].(next := free)], RemoveAt(act, k + 1), [x] + fl, head, x)
  {
    var x := act[k + 1];
    var m1 := m[act[k] := m[act[k]].(next := m[x].next)];
    var m2 := m1[x := m1[x].(next := free)];
    assert x !in fl && act[k] !in fl;
    LinkedUnlink(m, act, head, k + 1);
    PartitionGive(act, fl, k + 1);
    LinkedFrame(m1, m2, RemoveAt(act, k + 1), head);
    LinkedFrame(m, m1, fl, free);
    LinkedPush(m1, fl, free, x);
    NoDupCons(x, fl);
  }

  /** Index, in `act`, of the first active slot whose expression now
      evaluates to something other than its stored value; |act| if none. */
  ghost function FirstChange(m: seq<Wp>, act: seq<int>, evaluate: string -> int, from: nat): (j: nat)
    requires from <= |act|
    requires forall i :: 0 <= i < |act| ==> 0 <= act[i] < |m|
    decreases |act| - from
    ensures from <= j <= |act|
  {
    if from == |act| then from
    else if evaluate(m[act[from]].strExpr) != m[act[from]].val then from
    else FirstChange(m, act, evaluate, from + 1)
  }

  /** `FirstChange` finds a changed slot exactly when there is one, and no
      slot before it has changed. */
  lemma {:induction false} FirstChangeIsFirst(m: seq<Wp>, act: seq<int>, evaluate: string -> int, from: nat)
    requires from <= |act|
    requires forall i :: 0 <= i < |act| ==> 0 <= act[i] < |m|
    decreases |act| - from
    ensures var j := FirstChange(m, act, evaluate, from);
      (j < |act| <==> exists i :: from <= i < |act| && evaluate(m[act[i]].strExpr) != m[act[i]].val) &&
      (j < |act| ==> evaluate(m[act[j]].strExpr) != m[act[j]].val) &&
      (forall i :: from <= i < j ==> evaluate(m[act[i]].strExpr) == m[act[i]].val)
  {
    if from < |act| && evaluate(m[act[from]].strExpr) == m[act[from]].val {
      FirstChangeIsFirst(m, act, evaluate, from + 1);
    }
  }

  /** The pool `wp_pool` with the list heads `head` and `free_`. The ghost
      sequences `active` and `freeList` are the two lists in link order. */
  class Pool {
    var slots: array<Wp>
    var head: int
    var free: int
    ghost var active: seq<int>
    ghost var freeList: seq<int>

    ghost predicate Valid()
      reads this, slots
    {
      PoolOk(slots[..], active, freeList, head, free)
    }

    /** All fields of every slot other than its link are as in `old`. */
    twostate predicate OnlyLinksChanged()
      reads this, slots
    {
      slots.Length == old(slots.Length) &&
      forall i :: 0 <= i < slots.Length ==>
        slots[i].no == old(slots[i].no) && slots[i].strExpr == old(slots[i].strExpr) &&
        slots[i].val == old(slots[i].val)
    }

    /** The static, zero-initialised pool, set up by `init_wp_pool`. */
    constructor ()
      ensures Valid() && fresh(slots)
      ensures active == [] && freeList == Range(0, NrWp)
      ensures forall i :: 0 <= i < NrWp ==> slots[i].strExpr == "" && slots[i].val == 0
    {
      slots := new Wp[NrWp](_ => Wp(0, Null, "", 0));
      head := Null;
      free := Null;
      active := [];
      freeList := [];
      new;
      InitPool();
    }

    /** `init_wp_pool`: number the slots, chain them all in index order onto
        the free list and empty the active list. */
    method InitPool()
      requires slots.Length == NrWp
      modifies this, slots
      ensures Valid() && slots == old(slots)
      ensures active == [] && freeList == Range(0, NrWp)
      ensures forall i :: 0 <= i < NrWp ==>
        slots[i].strExpr == old(slots[i].strExpr) && slots[i].val == old(slots[i].val)
    {
      var i := 0;
      while i < NrWp
        invariant 0 <= i <= NrWp && slots == old(slots)
        invariant forall j :: 0 <= j < i ==>
          slots[j].no == j && slots[j].next == (if j == NrWp - 1 then Null else j + 1)
        invariant forall j :: 0 <= j < NrWp ==>
          slots[j].strExpr == old(slots[j].strExpr) && slots[j].val == old(slots[j].val)
      {
        slots[i] := slots[i].(no := i, next := if i == NrWp - 1 then Null else i + 1);
        i := i + 1;
      }
      head := Null;
      free := 0;
      active := [];
      freeList := Range(0, NrWp);
      InitialPoolOk(slots[..]);
    }

    /** Active slot numbers are pairwise distinct. */
    lemma ActiveNosDistinct()
      requires Valid()
      ensures forall j, k :: 0 <= j < k < |active| ==> slots[active[j]].no != slots[active[k]].no
    {
    }

    /** `new_wp`: take the first free slot and make it the first active one.
        The source aborts when the free list is empty. */
    method NewWp() returns (w: int)
      requires Valid() && freeList != []
      modifies this, slots
      ensures Valid() && slots == old(slots) && OnlyLinksChanged()
      ensures w == old(freeList[0]) && head == w
      ensures active == [w] + old(active) && freeList == old(freeList[1..])
    {
      ghost var m := slots[..];
      ghost var oldHead := head;
      TakeFree(m, active, freeList, head, free);
      var ret := head;
      if head == Null {
        head := free;
        free := slots[free].next;
        slots[head] := slots[head].(next := Null);
        ret := head;
      } else {
        var headCopy := head;
        head := free;
        free := slots[free].next;
        slots[head] := slots[head].(next := headCopy);
        ret := head;
      }
      assert slots[..] == m[ret := m[ret].(next := oldHead)];
      active := [ret] + active;
      freeList := freeList[1..];
      return ret;
    }

    /** The head case of `free_wp`: unlink the first active slot and put it in
        front of the free list. */
    method FreeHead()
      requires Valid() && active != []
      modifies this, slots
      ensures Valid() && slots == old(slots) && OnlyLinksChanged()
      ensures active == RemoveAt(old(active), 0) && freeList == [old(active[0])] + old(freeList)
    {
      ghost var m := slots[..];
      GiveHead(m, active, freeList, head, free);
      var w := head;
      head := slots[w].next;
      var freeCopy := free;
      free := w;
      slots[free] := slots[free].(next := freeCopy);
      assert slots[..] == m[w := m[w].(next := freeCopy)];
      freeList := [active[0]] + freeList;
      active := RemoveAt(active, 0);
    }

    /** The case of `free_wp` for a later slot: unlink the active slot after `exist`, the
        `k`th one, and put it in front of the free list. */
    method FreeAfter(exist: int, ghost k: nat)
      requires Valid() && k + 1 < |active| && exist == active[k]
      modifies this, slots
      ensures Valid() && slots == old(slots) && OnlyLinksChanged()
      ensures active == RemoveAt(old(active), k + 1)
      ensures freeList == [old(active[k + 1])] + old(freeList)
      ensures head == old(head)
    {
      ghost var m := slots[..];
      GiveAfter(m, active, freeList, head, free, k);
      var needFree := slots[exist].next;
      slots[exist] := slots[exist].(next := slots[slots[exist].next].next);
      ghost var m1 := m[exist := m[exist].(next := m[needFree].next)];
      assert slots[..] == m1;
      var freeCopy := free;
      free := needFree;
      slots[free] := slots[free].(next := freeCopy);
      assert slots[..] == m1[needFree := m1[needFree].(next := freeCopy)];
      freeList := [active[k + 1]] + freeList;
      active := RemoveAt(active, k + 1);
    }

    /** `free_wp`: return an active slot to the free list; the null pointer
        and a slot that is not active leave the pool as it is. The source
        dereferences the null head when a non-null slot is freed while no
        watchpoint is active. */
    method FreeWp(w: int)
      requires Valid() && (w == Null || 0 <= w < NrWp)
      requires w != Null ==> active != []
      modifies this, slots
      ensures Valid() && slots == old(slots) && OnlyLinksChanged()
      ensures w in old(active) ==>
        active == RemoveAt(old(active), IndexOf(old(active), w)) && freeList == [w] + old(freeList)
      ensures w !in old(active) ==>
        active == old(active) && freeList == old(freeList) && slots[..] == old(slots[..]) &&
        head == old(head) && free == old(free)
    {
      if w == Null {
        return;
      }
      if w == head {
        IndexOfIs(active, w, 0);
        FreeHead();
        return;
      }
      var exist := head;
      ghost var k := 0;
      while slots[exist].next != Null
        invariant Valid() && k < |active| && exist == active[k]
        invariant forall j :: 0 <= j <= k ==> active[j] != w
        invariant unchanged(this) && unchanged(slots)
        decreases |active| - k
      {
        assert slots[..][exist] == slots[exist];
        if w == slots[exist].next {
          IndexOfIs(active, w, k + 1);
          FreeAfter(exist, k);
          return;
        }
        exist := slots[exist].next;
        k := k + 1;
      }
      assert slots[..][exist] == slots[exist];
      LinkedEnd(slots[..], active, head, k);
    }

    /** `add_watchpoint`: allocate a slot, store the first 32 characters of
        the expression and the value given, and return the slot's number. */
    method AddWatchpoint(e: string, v: int) returns (no: int)
      requires Valid() && freeList != []
      modifies this, slots
      ensures Valid() && slots == old(slots)
      ensures no == old(freeList[0])
      ensures active == [no] + old(active) && freeList == old(freeList[1..])
      ensures slots[no].strExpr == Truncate(e, ExprLen) && slots[no].val == v
      ensures forall i :: 0 <= i < NrWp && i != no ==>
        slots[i].strExpr == old(slots[i].strExpr) && slots[i].val == old(slots[i].val)
    {
      var w := NewWp();
      ghost var m := slots[..];
      slots[w] := slots[w].(strExpr := Truncate(e, ExprLen));
      slots[w] := slots[w].(val := v);
      PoolOkSameLinks(m, slots[..], active, freeList, head, free);
      no := slots[w].no;
    }

    /** `delete_watchpoint`: walk the active list for the slot numbered `no`
        and free it; report whether there was one. */
    method DeleteWatchpoint(no: int) returns (found: bool)
      requires Valid()
      modifies this, slots
      ensures Valid() && slots == old(slots) && OnlyLinksChanged()
      ensures found == (no in old(active))
      ensures found ==>
        active == RemoveAt(old(active), IndexOf(old(active), no)) && freeList == [no] + old(freeList)
      ensures !found ==>
        active == old(active) && freeList == old(freeList) && slots[..] == old(slots[..]) &&
        head == old(head) && free == old(free)
    {
      var wp := head;
      ghost var k := 0;
      while wp != Null
        invariant Valid() && unchanged(this) && unchanged(slots)
        invariant k <= |active| && wp == (if k < |active| then active[k] else Null)
        invariant forall j :: 0 <= j < k ==> active[j] != no
        decreases |active| - k
      {
        assert slots[..][wp] == slots[wp];
        if slots[wp].no == no {
          FreeWp(wp);
          return true;
        }
        LinkedEnd(slots[..], active, head, k);
        wp := slots[wp].next;
        k := k + 1;
      }
      return false;
    }

    /** `watchpoint_difftest`: re-evaluate the active watchpoints in list
        order and, at the first one whose value differs from the stored one,
        store the new value and report a change. `evaluate` stands for `expr`
        on the current machine state; its success flag is not consulted. */
    method WatchpointDifftest(evaluate: string -> int) returns (changed: bool)
      requires Valid()
      modifies slots
      ensures Valid()
      ensures var j := FirstChange(old(slots[..]), active, evaluate, 0);
        changed == (j < |active|) &&
        slots[..] == (if changed
                      then old(slots[..])[active[j] := old(slots[active[j]]).(val := evaluate(old(slots[active[j]].strExpr)))]
                      else old(slots[..]))
    {
      var cur := head;
      ghost var k := 0;
      while cur != Null
        invariant Valid() && unchanged(slots)
        invariant k <= |active| && cur == (if k < |active| then active[k] else Null)
        invariant FirstChange(slots[..], active, evaluate, 0) == FirstChange(slots[..], active, evaluate, k)
        decreases |active| - k
      {
        assert slots[..][cur] == slots[cur];
        var val := evaluate(slots[cur].strExpr);
        if slots[cur].val != val {
          ghost var m := slots[..];
          assert m == old(slots[..]) && FirstChange(m, active, evaluate, k) == k;
          slots[cur] := slots[cur].(val := val);
          PoolOkSameLinks(m, slots[..], active, freeList, head, free);
          return true;
        }
        LinkedEnd(slots[..], active, head, k);
        cur := slots[cur].next;
        k := k + 1;
      }
      assert slots[..] == old(slots[..]);
      return false;
    }

    /** Freed slots are reused last-in, first-out: deleting the watchpoint
        numbered `no` and adding another gives the new one the number `no`. */
    method ReuseLastFreed(no: int, e: string, v: int) returns (found: bool, again: int)
      requires Valid() && no in active
      modifies this, slots
      ensures Valid() && found && again == no
      ensures slots[no].strExpr == Truncate(e, ExprLen) && slots[no].val == v
    {
      found := DeleteWatchpoint(no);
      again := AddWatchpoint(e, v);
    }
  }
}
