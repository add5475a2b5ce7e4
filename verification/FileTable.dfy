/** Model of file tables: kern/lib/table.c, an array with a list of its holes, and kern/filedes/filetable.c,
    tables that share counted files. That each ft_ call is one step is an assumption: a table has a lock of its own,
    but the counts are shared between tables and ft_destroy takes no lock. Memory does not run out except where a
    table grows. */
module FileTable {
  import opened Lists

  type Fid = nat  // a struct file, by identity
  type Tid = nat  // a struct filetable, by identity

  const PROC_NFILES_MAX: int := 50

  datatype Errno = EMFILE | ENOMEM | ENOENT | EBADF
  datatype Result<T> = Ok(value: T) | Err(error: Errno)

  // ---- tables as values

  type Arr = seq<Option<Fid>>

  datatype Tab = Tab(entries: Arr, slots: seq<int>)

  /** The hole list is exactly the NULL entries, each once. */
  ghost predicate TabOk(t: Tab) {
    NoDup(t.slots) && forall i :: i in t.slots <==> 0 <= i < |t.entries| && t.entries[i] == None
  }

  predicate FirstIn(t: Tab) { t.slots != [] ==> 0 <= t.slots[0] < |t.entries| }

  function Added(t: Tab, f: Fid): Tab
    requires FirstIn(t)
  {
    if t.slots == [] then t.(entries := t.entries + [Some(f)])
    else Tab(t.entries[t.slots[0] := Some(f)], t.slots[1..])
  }

  function AddedAt(t: Tab): int { if t.slots == [] then |t.entries| else t.slots[0] }

  function Cleared(t: Tab, i: int): Tab
    requires 0 <= i < |t.entries|
  {
    Tab(t.entries[i := None], t.slots + [i])
  }

  lemma FirstHole(t: Tab)
    requires TabOk(t) && t.slots != []
    ensures 0 <= t.slots[0] < |t.entries| && t.entries[t.slots[0]] == None
  {
    assert t.slots[0] in t.slots;
  }

  lemma AddKeeps(t: Tab, f: Fid)
    requires TabOk(t)
    ensures FirstIn(t)
    ensures TabOk(Added(t, f)) && (AddedAt(t) < |t.entries| ==> t.entries[AddedAt(t)] == None)
  {
    if t.slots != [] { FirstHole(t); }
    var t' := Added(t, f);
    if t.slots != [] {
      Split(t.slots);
      hide NoDup;
      forall j ensures j in t'.slots <==> 0 <= j < |t'.entries| && t'.entries[j] == None {
        assert j in t.slots <==> j == t.slots[0] || j in t'.slots;
      }
    } else {
      forall j | 0 <= j < |t'.entries| ensures t'.entries[j] != None { assert j !in t.slots; }
    }
  }

  lemma Split(s: seq<int>)
    requires s != [] && NoDup(s)
    ensures NoDup(s[1..]) && s[0] !in s[1..] && forall j :: j in s <==> j == s[0] || j in s[1..]
  {
    assert s == [s[0]] + s[1..];
  }

  lemma ClearKeeps(t: Tab, i: int)
    requires TabOk(t) && 0 <= i < |t.entries| && t.entries[i] != None
    ensures TabOk(Cleared(t, i))
  {
    assert i !in t.slots;
    var t' := Cleared(t, i);
    assert NoDup(t'.slots);
    hide NoDup;
    forall j ensures j in t'.slots <==> 0 <= j < |t'.entries| && t'.entries[j] == None {
      assert j in t'.slots <==> j in t.slots || j == i;
    }
  }

  /** tab_getnum counts the entries that are not NULL. */
  lemma {:induction false} GetNum(t: Tab)
    requires TabOk(t)
    ensures |t.entries| - |t.slots| == |Used(t.entries)|
  {
    HolesAre(t);
    hide NoDup, Used, Range, TabOk;
    RangeSize(0, |t.entries|);
    Rest(Range(0, |t.entries|), Elems(t.slots));
  }

  lemma HolesAre(t: Tab)
    requires TabOk(t)
    ensures Elems(t.slots) <= Range(0, |t.entries|) && Used(t.entries) == Range(0, |t.entries|) - Elems(t.slots)
  {
    hide NoDup, Range, Elems;
  }

  lemma Rest(all: set<int>, holes: set<int>)
    requires holes <= all
    ensures |all - holes| == |all| - |holes|
  {
  }

  function Used(a: Arr): set<int> { set i | 0 <= i < |a| && a[i] != None }

  // ---- tables as objects

  /** The int that tab_remove allocates for each hole, never written again */
  class Cell {
    const v: int
    constructor (n: int)
      ensures v == n
    {
      v := n;
    }
  }

  class Table {
    var entries: Arr
    var slots: seq<Cell>

    ghost function View(): (t: Tab)
      reads this
      ensures t.entries == entries && |t.slots| == |slots| && forall i :: 0 <= i < |slots| ==> t.slots[i] == slots[i].v
    {
      Tab(entries, seq(|slots|, i requires 0 <= i < |slots| reads this => slots[i].v))
    }

    /** tab_create */
    constructor ()
      ensures View() == Tab([], []) && slots == []
    {
      entries, slots := [], [];
    }

    /** get_first_slot */
    method GetFirstSlot() returns (r: int)
      modifies `slots
      ensures old(slots) == [] ==> r == -1 && slots == []
      ensures old(slots) != [] ==> r == old(slots[0].v) && slots == old(slots)[1..]
    {
      if |slots| == 0 { return -1; }
      r := slots[0].v;
      slots := slots[1..];
    }

    /** tab_add; noMem tells that the array could not grow */
    method Add(f: Fid, noMem: bool) returns (r: Result<int>)
      requires TabOk(View())
      modifies this
      ensures TabOk(View()) && (forall c :: c in slots ==> c in old(slots))
      ensures r.Err? <==> noMem && old(slots) == []
      ensures r.Err? ==> r.error == ENOMEM && View() == old(View())
      ensures r.Ok? ==> r.value == AddedAt(old(View())) && FirstIn(old(View())) && View() == Added(old(View()), f)
    {
      AddKeeps(View(), f);
      var slot := GetFirstSlot();
      if slot == -1 {
        if noMem { return Err(ENOMEM); }
        entries := entries + [Some(f)];
        assert View() == Added(old(View()), f);
        return Ok(|entries| - 1);
      }
      entries := entries[slot := Some(f)];
      assert View() == Added(old(View()), f);
      return Ok(slot);
    }

    /** tab_remove */
    method Remove(index: int)
      requires TabOk(View()) && 0 <= index < |entries| && entries[index] != None
      modifies this
      ensures TabOk(View()) && View() == Cleared(old(View()), index)
      ensures forall c :: c in slots ==> c in old(slots) || fresh(c)
    {
      ClearKeeps(View(), index);
      entries := entries[index := None];
      var i := new Cell(index);
      slots := slots + [i];
      assert View() == Cleared(old(View()), index);
    }

    /** tab_duplicate: equal contents, nothing shared */
    method Duplicate(n: Table)
      requires n != this && n.entries == [] && n.slots == []
      modifies n
      ensures n.View() == View() && View() == old(View())
      ensures forall c :: c in n.slots ==> fresh(c)
    {
      var i := 0;
      while i < |entries|
        invariant 0 <= i <= |entries| && n.entries == entries[..i] && n.slots == []
        invariant unchanged(this)
      {
        n.entries := n.entries + [entries[i]];
        i := i + 1;
      }
      var temp := slots;
      while temp != []
        invariant |temp| <= |slots| && temp == slots[|slots| - |temp|..] && n.entries == entries &&
                  |n.slots| == |slots| - |temp|
        invariant unchanged(this)
        invariant forall c :: c in n.slots ==> fresh(c)
        invariant forall k :: 0 <= k < |n.slots| ==> n.slots[k].v == slots[k].v
        decreases |temp|
      {
        var c := new Cell(temp[0].v);
        temp := temp[1..];
        n.slots := n.slots + [c];
      }
      assert n.View() == View();
    }
  }
}
