/** The file tables of all processes and the files they share (kern/filedes/filetable.c): the reference count of a
    file is the number of table entries that hold it plus a surplus fixed when the file was made, and the file is closed
    when the last entry goes, unless there is a surplus. */
module FileRefs {
  import opened Lists
  import opened FileTable

  type Arrs = map<Tid, Arr>

  /** References that a file's count was given by hand and no table entry stands for. */
  type Extra = map<Fid, nat>

  function Surplus(extra: Extra, f: Fid): nat { if f in extra then extra[f] else 0 }

  /** The entries that hold file f: a table and an index each. */
  function Holders(a: Arrs, f: Fid): set<(Tid, int)> {
    set t, i | t in a && 0 <= i < |a[t]| && a[t][i] == Some(f) :: (t, i)
  }

  ghost predicate CountsOk(a: Arrs, numrefs: map<Fid, int>, extra: Extra) {
    && (forall f :: f in numrefs ==> numrefs[f] == |Holders(a, f)| + Surplus(extra, f))
    && (forall t, i :: t in a && 0 <= i < |a[t]| && a[t][i].Some? ==> a[t][i].value in numrefs)
  }

  /** Counts are exact up to the surplus, nothing closed is still there, and nothing was closed twice. */
  ghost predicate RefsOk(a: Arrs, numrefs: map<Fid, int>, closed: seq<Fid>, extra: Extra) {
    && CountsOk(a, numrefs, extra) && NoDup(closed) && (forall f :: f in closed ==> f !in numrefs)
    && forall f :: f in extra ==> f in numrefs && extra[f] > 0
  }

  // ---- how the holders change

  lemma SetSize<T>(s: set<T>, s': set<T>, x: T)
    requires s - {x} == s' - {x}
    ensures |s'| == |s| + (if x in s' then 1 else 0) - (if x in s then 1 else 0)
  {
    assert x in s ==> s == (s - {x}) + {x};
    assert x in s' ==> s' == (s' - {x}) + {x};
    assert x !in s ==> s == s - {x};
    assert x !in s' ==> s' == s' - {x};
  }

  function Hit(x: Option<Fid>, f: Fid): int { if x == Some(f) then 1 else 0 }

  lemma HoldersSet(a: Arrs, t: Tid, i: int, x: Option<Fid>, f: Fid)
    requires t in a && 0 <= i < |a[t]|
    ensures |Holders(a[t := a[t][i := x]], f)| == |Holders(a, f)| + Hit(x, f) - Hit(a[t][i], f)
  {
    var s, s' := Holders(a, f), Holders(a[t := a[t][i := x]], f);
    assert (t, i) in s <==> a[t][i] == Some(f);
    assert (t, i) in s' <==> x == Some(f);
    assert s - {(t, i)} == s' - {(t, i)};
    SetSize(s, s', (t, i));
  }

  lemma HoldersPush(a: Arrs, t: Tid, x: Option<Fid>, f: Fid)
    requires t in a
    ensures |Holders(a[t := a[t] + [x]], f)| == |Holders(a, f)| + Hit(x, f)
  {
    var s, s', i := Holders(a, f), Holders(a[t := a[t] + [x]], f), |a[t]|;
    assert (t, i) !in s;
    assert (t, i) in s' <==> x == Some(f);
    assert s - {(t, i)} == s' - {(t, i)};
    SetSize(s, s', (t, i));
  }

  /** A table without files adds nothing and takes nothing away. */
  lemma HoldersEmpty(a: Arrs, t: Tid, e: Arr, f: Fid)
    requires (t in a ==> forall i :: 0 <= i < |a[t]| ==> a[t][i] == None) && forall i :: 0 <= i < |e| ==> e[i] == None
    ensures Holders(a[t := e], f) == Holders(a, f) == Holders(a - {t}, f)
  {
  }

  lemma SetKeeps(a: Arrs, numrefs: map<Fid, int>, t: Tid, i: int, f: Fid, extra: Extra)
    requires CountsOk(a, numrefs, extra) && t in a && 0 <= i < |a[t]| && a[t][i] == None && f in numrefs
    ensures CountsOk(a[t := a[t][i := Some(f)]], numrefs[f := numrefs[f] + 1], extra)
  {
    forall g | g in numrefs ensures |Holders(a[t := a[t][i := Some(f)]], g)| == |Holders(a, g)| + Hit(Some(f), g) {
      HoldersSet(a, t, i, Some(f), g);
    }
    hide Holders;
  }

  lemma PushKeeps(a: Arrs, numrefs: map<Fid, int>, t: Tid, x: Option<Fid>, extra: Extra)
    requires CountsOk(a, numrefs, extra) && t in a && (x.Some? ==> x.value in numrefs)
    ensures CountsOk(a[t := a[t] + [x]], if x.Some? then numrefs[x.value := numrefs[x.value] + 1] else numrefs, extra)
  {
    forall g | g in numrefs ensures |Holders(a[t := a[t] + [x]], g)| == |Holders(a, g)| + Hit(x, g) {
      HoldersPush(a, t, x, g);
    }
    hide Holders;
  }

  /** Taking an entry away takes one reference away; the count is then 0 exactly when the file is held no more and has
      no surplus. */
  lemma DropKeeps(a: Arrs, numrefs: map<Fid, int>, t: Tid, i: int, f: Fid, extra: Extra)
    requires CountsOk(a, numrefs, extra) && t in a && 0 <= i < |a[t]| && a[t][i] == Some(f)
    ensures f in numrefs && numrefs[f] >= 1
    ensures CountsOk(a[t := a[t][i := None]], numrefs[f := numrefs[f] - 1], extra)
    ensures numrefs[f] == 1 ==> CountsOk(a[t := a[t][i := None]], numrefs - {f}, extra)
    ensures numrefs[f] == 1 <==> Holders(a[t := a[t][i := None]], f) == {} && Surplus(extra, f) == 0
  {
    var a' := a[t := a[t][i := None]];
    assert (t, i) in Holders(a, f);
    forall g | g in numrefs ensures |Holders(a', g)| == |Holders(a, g)| - Hit(Some(f), g) {
      HoldersSet(a, t, i, None, g);
    }
    if numrefs[f] == 1 { NoHolders(a', f); }
    hide Holders;
  }

  lemma NoHolders(a: Arrs, f: Fid)
    requires Holders(a, f) == {}
    ensures forall t, i :: t in a && 0 <= i < |a[t]| ==> a[t][i] != Some(f)
  {
    forall t, i | t in a && 0 <= i < |a[t]| ensures a[t][i] != Some(f) { assert (t, i) !in Holders(a, f); }
  }

  lemma FewUsed(t: Tab)
    requires |t.entries| < PROC_NFILES_MAX
    ensures |Used(t.entries)| < PROC_NFILES_MAX
  {
    assert Used(t.entries) <= Range(0, |t.entries|);
    RangeSize(0, |t.entries|);
    Rest(Range(0, |t.entries|), Used(t.entries));
  }

  // ---- the whole state as a value

  type Views = map<Tid, Tab>

  function Arrays(v: Views): (a: Arrs)
    ensures a.Keys == v.Keys && forall t :: t in v ==> a[t] == v[t].entries
  {
    map t | t in v :: v[t].entries
  }

  ghost predicate SysOk(v: Views, numrefs: map<Fid, int>, closed: seq<Fid>, extra: Extra) {
    (forall t :: t in v ==> TabOk(v[t])) && RefsOk(Arrays(v), numrefs, closed, extra)
  }

  lemma SysFile(v: Views, numrefs: map<Fid, int>, closed: seq<Fid>, f: Fid, extra: Extra)
    requires SysOk(v, numrefs, closed, extra) && f !in numrefs && f !in closed
    ensures SysOk(v, numrefs[f := 0], closed, extra)
  {
    var a := Arrays(v);
    assert Holders(a, f) == {};
    hide Holders, TabOk, Arrays;
  }

  lemma SysTable(v: Views, numrefs: map<Fid, int>, closed: seq<Fid>, t: Tid, extra: Extra)
    requires SysOk(v, numrefs, closed, extra) && t !in v
    ensures SysOk(v[t := Tab([], [])], numrefs, closed, extra)
  {
    var a := Arrays(v);
    forall f | f in numrefs ensures |Holders(a[t := []], f)| == |Holders(a, f)| { HoldersEmpty(a, t, [], f); }
    assert Arrays(v[t := Tab([], [])]) == a[t := []];
    assert TabOk(Tab([], []));
    hide Holders, TabOk;
  }

  lemma CountsUnique(a: Arrs, m: map<Fid, int>, n: map<Fid, int>, f: Fid, extra: Extra)
    requires CountsOk(a, m, extra) && CountsOk(a, n, extra) && f in m && f in n
    ensures m[f] == n[f]
  {
  }

  lemma StoreKeeps(a: Arrs, numrefs: map<Fid, int>, t: Tid, tab: Tab, f: Fid, extra: Extra)
    requires CountsOk(a, numrefs, extra) && t in a && a[t] == tab.entries && TabOk(tab) && f in numrefs
    ensures FirstIn(tab) && TabOk(Added(tab, f))
    ensures CountsOk(a[t := Added(tab, f).entries], numrefs[f := numrefs[f] + 1], extra)
  {
    AddKeeps(tab, f);
    if tab.slots == [] {
      hide CountsOk, TabOk;
      PushKeeps(a, numrefs, t, Some(f), extra);
    } else {
      FirstHole(tab);
      hide CountsOk, TabOk;
      SetKeeps(a, numrefs, t, tab.slots[0], f, extra);
    }
  }

  /** The count of a file just stored is set to one, which is right exactly if no table held it before. */
  lemma SysStore(v: Views, numrefs: map<Fid, int>, closed: seq<Fid>, t: Tid, f: Fid, extra: Extra)
    requires SysOk(v, numrefs, closed, extra) && t in v && f in numrefs
    ensures FirstIn(v[t]) && (SysOk(v[t := Added(v[t], f)], numrefs[f := 1], closed, extra) <==> numrefs[f] == 0)
  {
    hide CountsOk, TabOk, FirstIn, Added;
    StoreKeeps(Arrays(v), numrefs, t, v[t], f, extra);
    var v' := v[t := Added(v[t], f)];
    assert Arrays(v') == Arrays(v)[t := Added(v[t], f).entries];
    if SysOk(v', numrefs[f := 1], closed, extra) {
      CountsUnique(Arrays(v'), numrefs[f := numrefs[f] + 1], numrefs[f := 1], f, extra);
    }
  }

  lemma NoSurplus(v: Views, numrefs: map<Fid, int>, closed: seq<Fid>, f: Fid, extra: Extra)
    requires SysOk(v, numrefs, closed, extra) && f !in numrefs
    ensures f !in extra
  {
    hide Holders, TabOk, Arrays, NoDup;
  }

  lemma NotHeld(v: Views, numrefs: map<Fid, int>, closed: seq<Fid>, t: Tid, f: Fid, extra: Extra)
    requires SysOk(v, numrefs, closed, extra) && f !in numrefs
    ensures Holders(Arrays(v - {t}), f) == {}
  {
    hide TabOk, NoDup;
  }

  /** A count raised by hand, with its surplus */
  lemma SysRaise(v: Views, numrefs: map<Fid, int>, closed: seq<Fid>, f: Fid, n: int, extra: Extra)
    requires SysOk(v, numrefs, closed, extra) && f in numrefs && numrefs[f] < n
    ensures SysOk(v, numrefs[f := n], closed, extra[f := Surplus(extra, f) + (n - numrefs[f])])
  {
    hide Holders, TabOk, Arrays, NoDup;
  }

  /** A file with a surplus is never closed, and its count never falls below the surplus. */
  lemma SurplusStays(v: Views, numrefs: map<Fid, int>, closed: seq<Fid>, f: Fid, extra: Extra)
    requires SysOk(v, numrefs, closed, extra) && f in extra
    ensures f !in closed && f in numrefs && numrefs[f] >= extra[f] > 0
    ensures numrefs[f] == extra[f] <==> Holders(Arrays(v), f) == {}
  {
    hide Holders, TabOk, Arrays, NoDup;
  }

  lemma TabIs(v: Views, numrefs: map<Fid, int>, closed: seq<Fid>, t: Tid, extra: Extra)
    requires SysOk(v, numrefs, closed, extra) && t in v
    ensures TabOk(v[t])
  {
  }

  function LessOne(n: map<Fid, int>, f: Fid): map<Fid, int>
    requires f in n
  {
    if n[f] - 1 == 0 then n - {f} else n[f := n[f] - 1]
  }

  function Closing(n: map<Fid, int>, closed: seq<Fid>, f: Fid): seq<Fid>
    requires f in n
  {
    if n[f] - 1 == 0 then closed + [f] else closed
  }

  /** File f lost a reference; it is closed exactly if no table holds it any more and it has no surplus, and then
      for the first time. */
  ghost predicate Dropped(n: map<Fid, int>, n': map<Fid, int>, c: seq<Fid>, c': seq<Fid>, v: Views, f: Fid,
                          extra: Extra) {
    && f in n
    && if Holders(Arrays(v), f) == {} && f !in extra then n' == n - {f} && c' == c + [f] && f !in c
       else n[f] > 1 && n' == n[f := n[f] - 1] && c' == c
  }

  /** One entry goes; with the last one the file is closed. */
  lemma SysDrop(v: Views, numrefs: map<Fid, int>, closed: seq<Fid>, t: Tid, i: int, f: Fid, extra: Extra)
    requires SysOk(v, numrefs, closed, extra) && t in v && 0 <= i < |v[t].entries| && v[t].entries[i] == Some(f)
    ensures f in numrefs
    ensures SysOk(v[t := Cleared(v[t], i)], LessOne(numrefs, f), Closing(numrefs, closed, f), extra)
    ensures Dropped(numrefs, LessOne(numrefs, f), closed, Closing(numrefs, closed, f),
                    v[t := Cleared(v[t], i)], f, extra)
  {
    var a, v' := Arrays(v), v[t := Cleared(v[t], i)];
    assert Arrays(v') == a[t := a[t][i := None]];
    ClearKeeps(v[t], i);
    hide TabOk, Arrays, Cleared, Holders;
    DropKeeps(a, numrefs, t, i, f, extra);
    RefsDrop(a, Arrays(v'), numrefs, closed, f, extra);
  }

  lemma RefsDrop(a: Arrs, a': Arrs, numrefs: map<Fid, int>, closed: seq<Fid>, f: Fid, extra: Extra)
    requires RefsOk(a, numrefs, closed, extra) && f in numrefs &&
             (numrefs[f] == 1 <==> Holders(a', f) == {} && Surplus(extra, f) == 0)
    requires if numrefs[f] == 1 then CountsOk(a', numrefs - {f}, extra)
               else CountsOk(a', numrefs[f := numrefs[f] - 1], extra)
    ensures RefsOk(a', LessOne(numrefs, f), Closing(numrefs, closed, f), extra) && f !in closed
  {
    hide CountsOk, Holders;
    assert f !in closed;
    assert NoDup(closed + [f]);
    hide NoDup;
  }

  /** A table with nothing in it goes. */
  lemma SysGone(v: Views, numrefs: map<Fid, int>, closed: seq<Fid>, t: Tid, extra: Extra)
    requires SysOk(v, numrefs, closed, extra) && t in v && forall i :: 0 <= i < |v[t].entries| ==>
               v[t].entries[i] == None
    ensures SysOk(v - {t}, numrefs, closed, extra)
  {
    var a := Arrays(v);
    forall f | f in numrefs ensures |Holders(a - {t}, f)| == |Holders(a, f)| { HoldersEmpty(a, t, [], f); }
    assert Arrays(v - {t}) == a - {t};
    hide Holders, TabOk;
  }

  /** Files that lost references: those that lost the last one are gone and closed, and no others are. */
  ghost predicate Settled(n: map<Fid, int>, n': map<Fid, int>, c: seq<Fid>, c': seq<Fid>) {
    && (forall f :: f in n' ==> f in n && n'[f] <= n[f] && (n'[f] == 0 ==> n[f] == 0))
    && (forall f :: f in c' <==> f in c || (f in n && f !in n'))
  }

  lemma HeldLives(v: Views, numrefs: map<Fid, int>, closed: seq<Fid>, t: Tid, i: int, extra: Extra)
    requires SysOk(v, numrefs, closed, extra) && t in v && 0 <= i < |v[t].entries| && v[t].entries[i].Some?
    ensures v[t].entries[i].value in numrefs && numrefs[v[t].entries[i].value] > 0
  {
    assert (t, i) in Holders(Arrays(v), v[t].entries[i].value);
  }

  lemma StartDup(v: Views, numrefs: map<Fid, int>, closed: seq<Fid>, t: Tid, m: Tid, extra: Extra)
    requires SysOk(v, numrefs, closed, extra) && t in v && m in v && v[m] == Tab([], [])
    ensures CountsOk(Arrays(v), numrefs, extra) && Arrays(v)[m] == []
    ensures forall i :: 0 <= i < |v[t].entries| && v[t].entries[i].Some? ==> v[t].entries[i].value in numrefs
  {
    forall i | 0 <= i < |v[t].entries| && v[t].entries[i].Some? ensures v[t].entries[i].value in numrefs {
      HeldLives(v, numrefs, closed, t, i, extra);
    }
  }

  lemma EndDup(v: Views, numrefs: map<Fid, int>, numrefs': map<Fid, int>, closed: seq<Fid>, t: Tid, m: Tid,
               extra: Extra)
    requires SysOk(v, numrefs, closed, extra) && t in v && m in v && numrefs'.Keys == numrefs.Keys
    requires CountsOk(Arrays(v)[m := v[t].entries], numrefs', extra)
    ensures SysOk(v[m := v[t]], numrefs', closed, extra)
  {
    hide CountsOk, TabOk;
    assert Arrays(v[m := v[t]]) == Arrays(v)[m := v[t].entries];
    assert forall f :: f in closed ==> f !in numrefs'.Keys;
  }

  /** Tables are different objects and share no hole cell. */
  ghost predicate Separate(m: map<Tid, Table>)
    reads m.Values
  {
    && (forall t, u :: t in m && u in m && t != u ==> m[t] != m[u])
    && (forall t, u, c :: t in m && u in m && t != u && c in m[t].slots ==> c !in m[u].slots)
  }

  ghost predicate Shows(m: map<Tid, Table>, v: Views)
    reads m.Values
  {
    v.Keys == m.Keys && forall t :: t in m ==> m[t].View() == v[t]
  }

  lemma ShowsKeys(m: map<Tid, Table>, v: Views)
    requires Shows(m, v)
    ensures v.Keys == m.Keys
  {
  }

  lemma ApartIs(m: map<Tid, Table>, t: Tid)
    requires Separate(m) && t in m
    ensures forall u :: u in m && u != t ==> m[u] != m[t]
  {
  }

  lemma ShowsIs(m: map<Tid, Table>, v: Views, t: Tid)
    requires Shows(m, v) && t in m
    ensures t in v && m[t].View() == v[t]
  {
  }

  lemma Fewer(m: map<Tid, Table>, v: Views, t: Tid)
    requires Separate(m) && Shows(m, v)
    ensures Separate(m - {t}) && Shows(m - {t}, v - {t})
  {
  }

  lemma More(m: map<Tid, Table>, v: Views, t: Tid, n: Table)
    requires Separate(m) && Shows(m, v) && t !in m && n !in m.Values && n.View() == Tab([], [])
    ensures Separate(m[t := n]) && Shows(m[t := n], v[t := Tab([], [])])
  {
    forall u | u in m ensures m[u] != n { assert m[u] in m.Values; }
  }

  class Files {
    var tables: map<Tid, Table>
    var numrefs: map<Fid, int>
    var closed: seq<Fid>
    ghost var view: Views
    ghost var extra: Extra

    ghost predicate Valid()
      reads this, tables.Values
    {
      Separate(tables) && Shows(tables, view) && SysOk(view, numrefs, closed, extra)
    }

    constructor ()
      ensures Valid() && tables == map[] && numrefs == map[] && closed == [] && extra == map[]
    {
      tables, numrefs, closed, view, extra := map[], map[], [], map[], map[];
    }

    /** f_create: a file that no table holds yet */
    method NewFile(f: Fid)
      requires Valid() && f !in numrefs && f !in closed
      modifies `numrefs
      ensures Valid() && numrefs == old(numrefs)[f := 0]
    {
      hide SysOk;
      SysFile(view, numrefs, closed, f, extra);
      numrefs := numrefs[f := 0];
    }

    twostate lemma Untouched()
      requires tables == old(tables) && view == old(view)
      requires old(Separate(tables))
      requires old(Shows(tables, view))
      requires forall u :: u in tables ==>
                 tables[u].slots == old(tables[u].slots) && tables[u].entries == old(tables[u].entries)
      ensures Separate(tables) && Shows(tables, view)
    {
      hide Table.View;
      forall u | u in tables ensures tables[u].View() == view[u] { assert tables[u].View() == old(tables[u].View()); }
    }

    /** ft_create */
    method NewTable(t: Tid)
      requires Valid() && t !in tables
      modifies `tables, `view
      ensures Valid() && t in tables && tables == old(tables)[t := tables[t]] && fresh(tables[t]) &&
              view == old(view)[t := Tab([], [])]
    {
      hide SysOk, Separate, Table.View, Shows;
      ShowsKeys(tables, view);
      SysTable(view, numrefs, closed, t, extra);
      var n := new Table();
      Untouched();
      More(tables, view, t, n);
      tables, view := tables[t := n], view[t := Tab([], [])];
    }

    /** ft_storefile; noMem tells that the table could not grow. The counts stay exact unless a table already
        held the file. */
    method Storefile(t: Tid, f: Fid, noMem: bool) returns (r: Result<int>)
      requires Valid() && t in tables && f in numrefs
      modifies this`numrefs, this`view, tables[t]
      ensures Valid() <==> r.Err? || old(numrefs[f]) == 0
      ensures r == Err(EMFILE) <==> |Used(old(view)[t].entries)| >= PROC_NFILES_MAX
      ensures r == Err(ENOMEM) <==> |Used(old(view)[t].entries)| < PROC_NFILES_MAX && noMem && old(view)[t].slots == []
      ensures r.Err? ==> r.error in {EMFILE, ENOMEM} && view == old(view) && numrefs == old(numrefs)
      ensures r.Ok? ==> FirstIn(old(view)[t]) && r.value == AddedAt(old(view)[t])
      ensures r.Ok? ==> view == old(view)[t := Added(old(view)[t], f)] && numrefs == old(numrefs)[f := 1]
    {
      hide Used, SysOk, Separate, Shows, TabOk, Table.View, Added, AddedAt, FirstIn;
      var n := tables[t];
      ShowsIs(tables, view, t);
      TabIs(view, numrefs, closed, t, extra);
      GetNum(view[t]);
      if |n.entries| - |n.slots| >= PROC_NFILES_MAX { return Err(EMFILE); }
      SysStore(view, numrefs, closed, t, f, extra);
      ApartIs(tables, t);
      r := n.Add(f, noMem);
      Changed(t);
      ghost var v := view[t := n.View()];
      if r.Err? { assert v == view; return; }
      numrefs := numrefs[f := 1];
      view := v;
    }

    /** A new file stored in a table, its count then set to 3 */
    method ConsoleFile(t: Tid, f: Fid, noMem: bool) returns (r: Result<int>)
      requires Valid() && t in tables && f !in numrefs && f !in closed
      modifies this`numrefs, this`view, this`extra, tables[t]
      ensures Valid() && (r.Err? ==> r.error in {EMFILE, ENOMEM} && view == old(view))
      ensures r.Err? ==> numrefs == old(numrefs)[f := 0] && extra == old(extra)
      ensures r == Err(EMFILE) <==> |Used(old(view)[t].entries)| >= PROC_NFILES_MAX
      ensures r == Err(ENOMEM) <==> |Used(old(view)[t].entries)| < PROC_NFILES_MAX && noMem && old(view)[t].slots == []
      ensures r.Ok? ==> FirstIn(old(view)[t]) && r.value == AddedAt(old(view)[t])
      ensures r.Ok? ==> view == old(view)[t := Added(old(view)[t], f)]
      ensures r.Ok? ==> numrefs == old(numrefs)[f := 3] && extra == old(extra)[f := 2]
    {
      hide SysOk, Separate, Shows, Used, Added, AddedAt, FirstIn;
      NoSurplus(view, numrefs, closed, f, extra);
      NewFile(f);
      r := Storefile(t, f, noMem);
      if r.Err? { return; }
      SysRaise(view, numrefs, closed, f, 3, extra);
      numrefs, extra := numrefs[f := 3], extra[f := 2];
    }

    /** console_files_bootstrap into the table of a new process; ok tells that its assertions hold. The code stores all
        three files before it sets their counts, which only this thread could tell apart. */
    method ConsoleFiles(t: Tid, stdin: Fid, stdout: Fid, stderr: Fid, noMem: bool) returns (ok: bool)
      requires Valid() && t in tables && view[t] == Tab([], [])
      requires stdin != stdout && stdin != stderr && stdout != stderr
      requires forall f :: f in {stdin, stdout, stderr} ==> f !in numrefs && f !in closed
      modifies this`numrefs, this`view, this`extra, tables[t]
      ensures Valid() && ok == !noMem
      ensures ok ==> view == old(view)[t := Tab([Some(stdin), Some(stdout), Some(stderr)], [])]
      ensures ok ==> numrefs == old(numrefs)[stdin := 3][stdout := 3][stderr := 3]
      ensures ok ==> extra == old(extra)[stdin := 2][stdout := 2][stderr := 2]
    {
      hide SysOk, Separate, Shows, Table.View, Used;
      ShowsIs(tables, view, t);
      FewUsed(view[t]);
      var r := ConsoleFile(t, stdin, noMem);
      if r.Err? { return false; }
      assert view[t] == Tab([Some(stdin)], []);
      FewUsed(view[t]);
      r := ConsoleFile(t, stdout, noMem);
      assert r.Ok? && view[t] == Tab([Some(stdin), Some(stdout)], []);
      FewUsed(view[t]);
      r := ConsoleFile(t, stderr, noMem);
      assert r.Ok? && view[t] == Tab([Some(stdin), Some(stdout), Some(stderr)], []);
      ok := true;
    }

    /** So the console files outlive the last table that holds them. */
    method ConsoleOutlives(t: Tid, stdin: Fid, stdout: Fid, stderr: Fid)
      requires Valid() && t in tables && view[t] == Tab([], [])
      requires stdin != stdout && stdin != stderr && stdout != stderr
      requires forall f :: f in {stdin, stdout, stderr} ==> f !in numrefs && f !in closed
      modifies this, tables[t]
      ensures Valid() && t !in tables && stdin in numrefs && numrefs[stdin] == 2 && Holders(Arrays(view), stdin) == {}
    {
      hide SysOk, Separate, Shows, Table.View, Holders;
      ShowsIs(tables, view, t);
      NotHeld(view, numrefs, closed, t, stdin, extra);
      var ok := ConsoleFiles(t, stdin, stdout, stderr, false);
      Destroy(t);
      assert view == old(view) - {t};
      SurplusStays(view, numrefs, closed, stdin, extra);
    }

    /** Clear an entry and drop its reference; the last reference closes and destroys the file. */
    method DropEntry(t: Tid, i: int)
      requires Valid() && t in tables && 0 <= i < |view[t].entries| && view[t].entries[i].Some?
      modifies this`numrefs, this`closed, this`view, tables[t]
      ensures Valid() && view == old(view)[t := Cleared(old(view)[t], i)]
      ensures Dropped(old(numrefs), numrefs, old(closed), closed, view, old(view)[t].entries[i].value, extra)
    {
      hide SysOk, Separate, Shows, TabOk, Table.View, Dropped, Cleared, LessOne, Closing;
      var n := tables[t];
      ShowsIs(tables, view, t);
      var f := n.entries[i].value;
      TabIs(view, numrefs, closed, t, extra);
      SysDrop(view, numrefs, closed, t, i, f, extra);
      ApartIs(tables, t);
      n.Remove(i);
      Changed(t);
      numrefs, closed, view := LessOne(numrefs, f), Closing(numrefs, closed, f), view[t := Cleared(view[t], i)];
    }

    /** ft_removefile; a hole is no error */
    method Removefile(t: Tid, fd: int) returns (r: Result<()>)
      requires Valid() && t in tables
      modifies this`numrefs, this`closed, this`view, tables[t]
      ensures Valid() && (r == Err(ENOENT) <==> !(0 <= fd < |old(view)[t].entries|)) && (r.Err? ==> r.error == ENOENT)
      ensures r.Err? || old(view)[t].entries[fd] == None ==>
                view == old(view) && numrefs == old(numrefs) && closed == old(closed)
      ensures r.Ok? && old(view)[t].entries[fd].Some? ==> view == old(view)[t := Cleared(old(view)[t], fd)]
      ensures r.Ok? && old(view)[t].entries[fd].Some? ==>
                Dropped(old(numrefs), numrefs, old(closed), closed, view, old(view)[t].entries[fd].value, extra)
    {
      hide SysOk, Separate, Shows, TabOk, Table.View, Dropped;
      ShowsIs(tables, view, t);
      if fd < 0 || fd >= |tables[t].entries| { return Err(ENOENT); }
      if tables[t].entries[fd].Some? { DropEntry(t, fd); }
      return Ok(());
    }

    /** ft_getfile */
    method Getfile(t: Tid, fd: int) returns (r: Result<Fid>)
      requires Valid() && t in tables
      ensures r == if 0 <= fd < |view[t].entries| && view[t].entries[fd].Some? then Ok(view[t].entries[fd].value)
                else Err(EBADF)
      ensures r.Ok? ==> r.value in numrefs && numrefs[r.value] > 0
    {
      if fd < 0 || fd >= |tables[t].entries| { return Err(EBADF); }
      if tables[t].entries[fd] == None { return Err(EBADF); }
      HeldLives(view, numrefs, closed, t, fd, extra);
      return Ok(tables[t].entries[fd].value);
    }

    /** ft_duplicate, into a table just made */
    method Duplicate(t: Tid, m: Tid)
      requires Valid() && t in tables && m in tables && m != t && view[m] == Tab([], [])
      modifies this`numrefs, this`view, tables[m]
      ensures Valid() && view == old(view)[m := old(view)[t]] && numrefs.Keys == old(numrefs).Keys
    {
      hide SysOk, Separate, Shows, TabOk, Table.View, Holders, CountsOk;
      var n, d := tables[t], tables[m];
      ShowsIs(tables, view, t);
      ShowsIs(tables, view, m);
      ApartIs(tables, m);
      StartDup(view, numrefs, closed, t, m, extra);
      n.Duplicate(d);
      Changed(m);
      AddRefs(d, Arrays(view), m);
      EndDup(view, old(numrefs), numrefs, closed, t, m, extra);
      view := view[m := view[t]];
    }

    /** Every entry of the new table is one more reference. */
    method AddRefs(d: Table, ghost a: Arrs, ghost m: Tid)
      requires m in a && a[m] == [] && CountsOk(a, numrefs, extra)
      requires forall i :: 0 <= i < |d.entries| && d.entries[i].Some? ==> d.entries[i].value in numrefs
      modifies `numrefs
      ensures numrefs.Keys == old(numrefs).Keys && CountsOk(a[m := d.entries], numrefs, extra)
    {
      hide CountsOk;
      ghost var e := d.entries;
      var i := 0;
      assert a[m := e[..0]] == a;
      while i < |d.entries|
        modifies `numrefs
        invariant 0 <= i <= |e| && numrefs.Keys == old(numrefs).Keys && CountsOk(a[m := e[..i]], numrefs, extra)
      {
        assert e[..i + 1] == e[..i] + [e[i]];
        ghost var b: Arrs := a[m := e[..i]];
        PushKeeps(b, numrefs, m, e[i], extra);
        assert b[m := e[..i + 1]] == a[m := e[..i + 1]];
        if d.entries[i].Some? { numrefs := numrefs[d.entries[i].value := numrefs[d.entries[i].value] + 1]; }
        i := i + 1;
      }
      assert e[..i] == e;
    }

    /** ft_destroy */
    method Destroy(t: Tid)
      requires Valid() && t in tables
      modifies this`tables, this`numrefs, this`closed, this`view, tables[t]
      ensures Valid() && tables == old(tables) - {t} && view == old(view) - {t}
      ensures Settled(old(numrefs), numrefs, old(closed), closed)
    {
      hide SysOk, Separate, Shows, TabOk, Table.View, Holders;
      ShowsIs(tables, view, t);
      ghost var n, rest := |view[t].entries|, view - {t};
      var i := 0;
      while i < |tables[t].entries|
        invariant 0 <= i <= n && Valid() && tables == old(tables) && t in view && |view[t].entries| == n &&
                  view - {t} == rest
        invariant |tables[t].entries| == n && forall j :: 0 <= j < i ==> view[t].entries[j] == None
        invariant Settled(old(numrefs), numrefs, old(closed), closed)
      {
        ShowsIs(tables, view, t);
        if tables[t].entries[i] != None { DropEntry(t, i); }
        ShowsIs(tables, view, t);
        i := i + 1;
      }
      SysGone(view, numrefs, closed, t, extra);
      Fewer(tables, view, t);
      tables, view := tables - {t}, view - {t};
    }

    /** Only table t changed: hole cells stay apart when it loses some and gains new ones. */
    twostate lemma Changed(t: Tid)
      requires tables == old(tables) && view == old(view) && t in tables
      requires old(Separate(tables))
      requires old(Shows(tables, view))
      requires forall u :: u in tables && u != t ==>
                 tables[u].slots == old(tables[u].slots) && tables[u].entries == old(tables[u].entries)
      requires forall c :: c in tables[t].slots ==> c in old(tables[t].slots) || fresh(c)
      ensures Separate(tables) && Shows(tables, view[t := tables[t].View()])
    {
      assert Separate(tables);
      hide Separate;
      forall u | u in tables && u != t ensures tables[u].View() == view[u] {
        assert tables[u].View() == old(tables[u].View());
      }
    }
  }
}
