/**
The request dictionary: a base shared by every request of a route, and an
overlay per request.

`Dict` is the layered type. `BuildBases` builds the bases, shared between routes
by the joined list of their static files, and `BuildDict` fills one overlay. The
reference for all of it is one flat merge in which the last writer wins.
*/
module Layers {
  import opened Bytes

  type Layer = map<string, string>

  type Entries = seq<(string, string)>

  /** Entries written one after another. */
  function Written(m: Layer, es: Entries): Layer {
    if es == [] then m else Written(m, es[..|es| - 1])[es[|es| - 1].0 := es[|es| - 1].1]
  }

  lemma {:induction false} WrittenConcat(m: Layer, a: Entries, b: Entries)
    ensures Written(m, a + b) == Written(Written(m, a), b)
  {
    if b == [] {
      assert a + b == a;
    } else {
      assert (a + b)[..|a + b| - 1] == a + b[..|b| - 1];
      WrittenConcat(m, a, b[..|b| - 1]);
    }
  }

  lemma {:induction false} CountOutside(s: set<string>, o: set<string>, k: string)
    requires k in s
    ensures |s - o| == |(s - {k}) - o| + if k in o then 0 else 1
  {
    if k in o {
      assert s - o == (s - {k}) - o;
    } else {
      assert s - o == ((s - {k}) - o) + {k};
    }
  }

  lemma {:induction false} UnionSize(b: Layer, o: Layer)
    ensures |b + o| == |b.Keys - o.Keys| + |o|
  {
    assert (b + o).Keys == (b.Keys - o.Keys) + o.Keys;
    assert |(b + o).Keys| == |b.Keys - o.Keys| + |o.Keys|;
    assert |b + o| == |(b + o).Keys| && |o| == |o.Keys|;
  }

  class Dict {
    const base: Option<Layer>
    var overlay: Layer

    constructor (base: Option<Layer>)
      ensures this.base == base && overlay == map[]
    {
      this.base := base;
      overlay := map[];
    }

    function Base(): Layer { if base.Some? then base.value else map[] }

    /** What the dictionary stands for. */
    ghost function Flat(): Layer
      reads this
    {
      Base() + overlay
    }

    lemma {:induction false} FlatIs()
      ensures Flat() == Base() + overlay
    {
    }

    method Insert(key: string, value: string)
      modifies this
      ensures Flat() == old(Flat())[key := value]
    {
      overlay := overlay[key := value];
      assert Base() + overlay == old(Base() + overlay)[key := value];
    }

    /** Overlay first, then base. */
    function Get(key: string): (r: Option<string>)
      reads this
      ensures r.Some? <==> key in Flat()
      ensures r.Some? ==> r.value == Flat()[key]
    {
      if key in overlay then Some(overlay[key])
      else if base.Some? && key in base.value then Some(base.value[key])
      else None
    }

    /** Distinct keys across both layers. */
    method Len() returns (n: nat)
      ensures n == |Flat()|
    {
      hide Base, Flat;
      n := 0;
      var b := Base();
      var left := b.Keys;
      while left != {}
        invariant n + |left - overlay.Keys| == |b.Keys - overlay.Keys|
        decreases left
      {
        var k :| k in left;
        CountOutside(left, overlay.Keys, k);
        if k !in overlay {
          n := n + 1;
        }
        left := left - {k};
      }
      assert {} - overlay.Keys == {};
      n := n + |overlay|;
      UnionSize(b, overlay);
      FlatIs();
    }

    method ToMap() returns (m: Layer)
      ensures m == Flat()
    {
      m := Base();
      var left := overlay.Keys;
      while left != {}
        invariant left <= overlay.Keys
        invariant m == Base() + (map k | k in overlay && k !in left :: overlay[k])
        decreases left
      {
        var k :| k in left;
        m := m[k := overlay[k]];
        left := left - {k};
      }
      assert (map k | k in overlay && k !in left :: overlay[k]) == overlay;
    }

    /** Every visible entry once: the overlay, then the base entries it does not shadow. */
    method Iter() returns (es: Entries)
      ensures forall e :: e in es <==> e.0 in Flat() && Flat()[e.0] == e.1
      ensures forall i, j :: 0 <= i < j < |es| ==> es[i].0 != es[j].0
    {
      es := [];
      var left := overlay.Keys;
      while left != {}
        invariant left <= overlay.Keys
        invariant forall e :: e in es <==> e.0 in overlay && e.0 !in left && overlay[e.0] == e.1
        invariant forall i, j :: 0 <= i < j < |es| ==> es[i].0 != es[j].0
        decreases left
      {
        var k :| k in left;
        assert forall i :: 0 <= i < |es| ==> es[i] in es;
        es := es + [(k, overlay[k])];
        left := left - {k};
      }
      left := Base().Keys;
      while left != {}
        invariant left <= Base().Keys
        invariant forall e :: e in es <==>
                    (e.0 in overlay && overlay[e.0] == e.1)
                    || (e.0 in Base() && e.0 !in overlay && e.0 !in left && Base()[e.0] == e.1)
        invariant forall i, j :: 0 <= i < j < |es| ==> es[i].0 != es[j].0
        decreases left
      {
        var k :| k in left;
        assert forall i :: 0 <= i < |es| ==> es[i] in es;
        if k !in overlay {
          es := es + [(k, Base()[k])];
        }
        left := left - {k};
      }
    }
  }

  // ---- the base of one route ----

  /** Files by name; a name without a file is missing. */
  type Files = map<string, Layer>

  function Content(files: Files, name: string): Layer {
    if name in files then files[name] else map[]
  }

  /** The files of a list merged over `m`, those in `skip` left out. */
  function MergeFiles(m: Layer, files: Files, names: seq<string>, skip: seq<string>): Layer {
    if names == [] then m
    else
      var before := MergeFiles(m, files, names[..|names| - 1], skip);
      if names[|names| - 1] in skip then before else before + Content(files, names[|names| - 1])
  }

  /** Config keys, then global files. */
  function GlobalLayer(user: Layer, files: Files, globals: seq<string>): Layer {
    user + MergeFiles(map[], files, globals, [])
  }

  /** Then the route's static files, a global one not merged a second time. */
  function BaseOf(user: Layer, files: Files, globals: seq<string>, statics: seq<string>): Layer {
    MergeFiles(GlobalLayer(user, files, globals), files, statics, globals)
  }

  // ---- sharing bases ----

  const SEP: char := 1 as char

  /** The key bases are shared under: the file names joined by U+0001. */
  function JoinKey(names: seq<string>): string {
    if names == [] then "" else if |names| == 1 then names[0] else names[0] + [SEP] + JoinKey(names[1..])
  }

  /** The first route whose list has the same key. */
  function FirstWithKey(lists: seq<seq<string>>, key: string, n: nat): (r: Option<nat>)
    requires n <= |lists|
    ensures r.Some? ==> r.value < n && JoinKey(lists[r.value]) == key
    ensures r.Some? ==> forall j :: 0 <= j < r.value ==> JoinKey(lists[j]) != key
    ensures r.None? ==> forall j :: 0 <= j < n ==> JoinKey(lists[j]) != key
  {
    if n == 0 then None
    else
      var before := FirstWithKey(lists, key, n - 1);
      if before.Some? then before else if JoinKey(lists[n - 1]) == key then Some(n - 1) else None
  }

  /** The base each route is given. */
  function SharedBase(user: Layer, files: Files, globals: seq<string>, lists: seq<seq<string>>, i: nat): Layer
    requires i < |lists|
  {
    var first := FirstWithKey(lists, JoinKey(lists[i]), |lists|);
    BaseOf(user, files, globals, lists[first.value])
  }

  method MergeStatics(m0: Layer, files: Files, names: seq<string>, skip: seq<string>) returns (m: Layer)
    ensures m == MergeFiles(m0, files, names, skip)
  {
    m := m0;
    var i := 0;
    while i < |names|
      invariant i <= |names| && m == MergeFiles(m0, files, names[..i], skip)
    {
      assert names[..i + 1][..i] == names[..i];
      if names[i] !in skip {
        if names[i] in files {
          m := m + files[names[i]];
        } else {
          assert m + map[] == m;
        }
      }
      i := i + 1;
    }
    assert names[..i] == names;
  }

  /** The bases made for the first `n` routes, by key. */
  ghost predicate MemoOk(user: Layer, files: Files, globals: seq<string>, lists: seq<seq<string>>,
                         memo: map<string, Layer>, n: nat)
    requires n <= |lists|
  {
    forall key ::
      && (key in memo <==> FirstWithKey(lists, key, n).Some?)
      && (key in memo ==> memo[key] == BaseOf(user, files, globals, lists[FirstWithKey(lists, key, n).value]))
  }

  /** Global files are read first, static ones later; a name in both lists counts as it was first read. */
  function Seen(first: Files, later: Files, globals: seq<string>): Files {
    map x | x in first.Keys + later.Keys && (if x in globals then x in first else x in later) ::
      if x in globals then first[x] else later[x]
  }

  lemma {:induction false} SeenGlobals(m: Layer, first: Files, later: Files, globals: seq<string>, names: seq<string>)
    requires forall x :: x in names ==> x in globals
    ensures MergeFiles(m, first, names, []) == MergeFiles(m, Seen(first, later, globals), names, [])
  {
    if names != [] {
      assert names[|names| - 1] in names;
      SeenGlobals(m, first, later, globals, names[..|names| - 1]);
    }
  }

  lemma {:induction false} SeenStatics(m: Layer, first: Files, later: Files, globals: seq<string>, names: seq<string>)
    ensures MergeFiles(m, later, names, globals) == MergeFiles(m, Seen(first, later, globals), names, globals)
  {
    if names != [] {
      SeenStatics(m, first, later, globals, names[..|names| - 1]);
    }
  }

  method BuildBases(user: Layer, first: Files, later: Files, globals: seq<string>, lists: seq<seq<string>>)
    returns (bases: seq<Layer>)
    ensures |bases| == |lists|
    ensures forall i :: 0 <= i < |lists| ==>
              bases[i] == SharedBase(user, Seen(first, later, globals), globals, lists, i)
  {
    hide JoinKey, MergeFiles, MemoOk, FirstWithKey, Seen;
    bases := [];
    var global := MergeStatics(map[], first, globals, []);
    ghost var files := Seen(first, later, globals);
    SeenGlobals(map[], first, later, globals, globals);
    var memo: map<string, Layer> := map[];
    var i := 0;
    MemoStart(user, files, globals, lists);
    while i < |lists|
      invariant i <= |lists| && |bases| == i
      invariant MemoOk(user, files, globals, lists, memo, i)
      invariant forall j :: 0 <= j < i ==> bases[j] == SharedBase(user, files, globals, lists, j)
    {
      var key := JoinKey(lists[i]);
      MemoStep(user, files, globals, lists, memo, i);
      if key !in memo {
        var m := MergeStatics(user + global, later, lists[i], globals);
        SeenStatics(user + global, first, later, globals, lists[i]);
        memo := memo[key := m];
      }
      MemoHas(user, files, globals, lists, memo, i);
      bases := bases + [memo[key]];
      i := i + 1;
    }
  }

  lemma {:induction false} MemoStart(user: Layer, files: Files, globals: seq<string>, lists: seq<seq<string>>)
    ensures MemoOk(user, files, globals, lists, map[], 0)
  {
  }

  lemma {:induction false} MemoStep(user: Layer, files: Files, globals: seq<string>, lists: seq<seq<string>>,
                                    memo: map<string, Layer>, i: nat)
    requires i < |lists| && MemoOk(user, files, globals, lists, memo, i)
    ensures var key := JoinKey(lists[i]);
            MemoOk(user, files, globals, lists,
                   if key in memo then memo else memo[key := BaseOf(user, files, globals, lists[i])], i + 1)
  {
    hide JoinKey, BaseOf;
  }

  lemma {:induction false} MemoHas(user: Layer, files: Files, globals: seq<string>, lists: seq<seq<string>>,
                                   memo: map<string, Layer>, i: nat)
    requires i < |lists| && MemoOk(user, files, globals, lists, memo, i + 1)
    ensures JoinKey(lists[i]) in memo
    ensures memo[JoinKey(lists[i])] == SharedBase(user, files, globals, lists, i)
  {
    hide JoinKey, BaseOf;
    FirstStays(lists, JoinKey(lists[i]), i + 1);
  }

  lemma {:induction false} FirstStays(lists: seq<seq<string>>, key: string, n: nat)
    requires n <= |lists| && FirstWithKey(lists, key, n).Some?
    ensures FirstWithKey(lists, key, |lists|) == FirstWithKey(lists, key, n)
  {
    var a, b := FirstWithKey(lists, key, n), FirstWithKey(lists, key, |lists|);
    assert JoinKey(lists[a.value]) == key;
  }

  // ---- when sharing is right ----

  /** The names that are merged, each at its last place only. */
  function LastOnly(names: seq<string>, skip: seq<string>): seq<string> {
    if names == [] then []
    else
      var rest := LastOnly(names[1..], skip);
      if names[0] in skip || names[0] in rest then rest else [names[0]] + rest
  }

  /** The value a list of files leaves at a key, if it writes it. */
  function LastValue(files: Files, names: seq<string>, skip: seq<string>, k: string): Option<string> {
    if names == [] then None
    else
      var rest := LastValue(files, names[1..], skip, k);
      if rest.Some? then rest
      else if names[0] !in skip && k in Content(files, names[0]) then Some(Content(files, names[0])[k])
      else None
  }

  lemma {:induction false} LastValueSnoc(files: Files, names: seq<string>, last: string, skip: seq<string>, k: string)
    ensures LastValue(files, names + [last], skip, k) ==
            if last !in skip && k in Content(files, last) then Some(Content(files, last)[k])
            else LastValue(files, names, skip, k)
  {
    var all := names + [last];
    if names == [] {
      assert all[1..] == [];
    } else {
      assert all[1..] == names[1..] + [last];
      LastValueSnoc(files, names[1..], last, skip, k);
    }
  }

  /** Merging a list is writing, at each key, its last value. */
  lemma {:induction false} MergeFilesAt(m: Layer, files: Files, names: seq<string>, skip: seq<string>, k: string)
    ensures var r, v := MergeFiles(m, files, names, skip), LastValue(files, names, skip, k);
            && (k in r <==> v.Some? || k in m)
            && (v.Some? ==> r[k] == v.value)
            && (v.None? && k in m ==> r[k] == m[k])
  {
    if names != [] {
      var init, last := names[..|names| - 1], names[|names| - 1];
      assert names == init + [last];
      MergeFilesAt(m, files, init, skip, k);
      LastValueSnoc(files, init, last, skip, k);
    }
  }

  lemma {:induction false} LastOnlyIn(names: seq<string>, skip: seq<string>, x: string)
    ensures x in LastOnly(names, skip) <==> x in names && x !in skip
  {
    if names != [] {
      LastOnlyIn(names[1..], skip, x);
      LastOnlyIn(names[1..], skip, names[0]);
      assert names == [names[0]] + names[1..];
    }
  }

  lemma {:induction false} LastValueWriter(files: Files, names: seq<string>, skip: seq<string>, k: string, x: string)
    requires x in names && x !in skip && k in Content(files, x)
    ensures LastValue(files, names, skip, k).Some?
  {
    assert names == [names[0]] + names[1..];
    if x in names[1..] {
      LastValueWriter(files, names[1..], skip, k, x);
    }
  }

  /** Only the last place of each name counts. */
  lemma {:induction false} LastOnlyEnough(files: Files, names: seq<string>, skip: seq<string>, k: string)
    ensures LastValue(files, LastOnly(names, skip), [], k) == LastValue(files, names, skip, k)
  {
    if names != [] {
      var rest := LastOnly(names[1..], skip);
      LastOnlyEnough(files, names[1..], skip, k);
      if names[0] in skip {
      } else if names[0] in rest {
        if k in Content(files, names[0]) {
          LastValueWriter(files, rest, [], k, names[0]);
        }
      } else {
        assert ([names[0]] + rest)[1..] == rest;
      }
    }
  }

  lemma {:induction false} SameBase(user: Layer, files: Files, globals: seq<string>, a: seq<string>, b: seq<string>)
    requires LastOnly(a, globals) == LastOnly(b, globals)
    ensures BaseOf(user, files, globals, a) == BaseOf(user, files, globals, b)
  {
    hide MergeFiles, LastValue, LastOnly;
    var m := GlobalLayer(user, files, globals);
    var x, y := BaseOf(user, files, globals, a), BaseOf(user, files, globals, b);
    forall k ensures (k in x <==> k in y) && (k in x ==> x[k] == y[k]) {
      LastOnlyEnough(files, a, globals, k);
      LastOnlyEnough(files, b, globals, k);
      MergeFilesAt(m, files, a, globals, k);
      MergeFilesAt(m, files, b, globals, k);
    }
  }

  // ---- telling two lists apart by what the files hold ----

  ghost predicate NoRepeats(s: seq<string>) { forall i, j :: 0 <= i < j < |s| ==> s[i] != s[j] }

  lemma {:induction false} LastOnlyNoRepeats(names: seq<string>, skip: seq<string>)
    ensures NoRepeats(LastOnly(names, skip))
  {
    if names != [] {
      LastOnlyNoRepeats(names[1..], skip);
      var rest := LastOnly(names[1..], skip);
      assert forall i :: 0 <= i < |rest| ==> rest[i] in rest;
    }
  }

  /** Every file holds its own name under one key. */
  function NameFiles(names: set<string>, k: string): Files {
    map x | x in names :: map[k := x]
  }

  /** With those, a list without repeats leaves the name it ends with. */
  lemma {:induction false} NameFilesLast(names: set<string>, s: seq<string>, k: string)
    ensures forall x :: x in s && x in names ==> LastValue(NameFiles(names, k), s, [], k).Some?
    ensures LastValue(NameFiles(names, k), s, [], k).Some? ==>
              var x := LastValue(NameFiles(names, k), s, [], k).value;
              x in names && x in s
    ensures s != [] && s[|s| - 1] in names ==> LastValue(NameFiles(names, k), s, [], k) == Some(s[|s| - 1])
  {
    if s != [] {
      assert s == [s[0]] + s[1..];
      NameFilesLast(names, s[1..], k);
    }
  }

  lemma {:induction false} NameFilesAppend(names: set<string>, s: seq<string>, t: seq<string>, k: string)
    requires forall x :: x in t ==> x !in names
    ensures LastValue(NameFiles(names, k), s + t, [], k) == LastValue(NameFiles(names, k), s, [], k)
  {
    if s == [] {
      assert s + t == t;
      NameFilesLast(names, t, k);
    } else {
      assert (s + t)[1..] == s[1..] + t;
      NameFilesAppend(names, s[1..], t, k);
    }
  }

  /** Lists without repeats that differ are told apart by some files of one key. */
  lemma {:induction false} DifferentListsDiffer(a: seq<string>, b: seq<string>, k: string) returns (names: set<string>)
    requires NoRepeats(a) && NoRepeats(b) && a != b
    ensures LastValue(NameFiles(names, k), a, [], k) != LastValue(NameFiles(names, k), b, [], k)
    decreases |a|
  {
    if a == [] {
      names := {b[|b| - 1]};
      NameFilesLast(names, b, k);
    } else if b == [] {
      names := {a[|a| - 1]};
      NameFilesLast(names, a, k);
    } else {
      var x, y := a[|a| - 1], b[|b| - 1];
      if x != y {
        names := {x, y};
        NameFilesLast(names, a, k);
        NameFilesLast(names, b, k);
      } else {
        var a', b' := a[..|a| - 1], b[..|b| - 1];
        assert a == a' + [x] && b == b' + [x];
        var inner := DifferentListsDiffer(a', b', k);
        names := inner - {x};
        WithoutName(inner, a', x, k);
        WithoutName(inner, b', x, k);
        NameFilesAppend(names, a', [x], k);
        NameFilesAppend(names, b', [x], k);
      }
    }
  }

  lemma {:induction false} WithoutName(names: set<string>, s: seq<string>, x: string, k: string)
    requires x !in s
    ensures LastValue(NameFiles(names - {x}, k), s, [], k) == LastValue(NameFiles(names, k), s, [], k)
  {
    if s != [] {
      assert s == [s[0]] + s[1..];
      WithoutName(names, s[1..], x, k);
    }
  }

  /** Lists with the same key merge the same files in the same order. */
  ghost predicate SharingSafe(globals: seq<string>, lists: seq<seq<string>>) {
    forall i, j :: 0 <= i < |lists| && 0 <= j < |lists| && JoinKey(lists[i]) == JoinKey(lists[j]) ==>
      LastOnly(lists[i], globals) == LastOnly(lists[j], globals)
  }

  /** Every route gets its own base, whatever the files hold. */
  ghost predicate SharingInvisible(user: Layer, globals: seq<string>, lists: seq<seq<string>>) {
    forall files: Files, i :: 0 <= i < |lists| ==>
      SharedBase(user, files, globals, lists, i) == BaseOf(user, files, globals, lists[i])
  }

  /**
  Sharing bases by the joined list changes no route's base, whatever the files
  hold, exactly when lists with one key merge the same files in the same order.
  */
  lemma {:induction false} SharingExactly(user: Layer, globals: seq<string>, lists: seq<seq<string>>)
    ensures SharingSafe(globals, lists) <==> SharingInvisible(user, globals, lists)
  {
    hide JoinKey, LastOnly, BaseOf;
    if SharingSafe(globals, lists) {
      forall files: Files, i | 0 <= i < |lists|
        ensures SharedBase(user, files, globals, lists, i) == BaseOf(user, files, globals, lists[i])
      {
        var j := FirstWithKey(lists, JoinKey(lists[i]), |lists|).value;
        SameBase(user, files, globals, lists[j], lists[i]);
      }
    }
    if !SharingSafe(globals, lists) {
      var i, j :| 0 <= i < |lists| && 0 <= j < |lists| && JoinKey(lists[i]) == JoinKey(lists[j])
                  && LastOnly(lists[i], globals) != LastOnly(lists[j], globals);
      var files := Telling(user, globals, lists[i], lists[j]);
      assert SharedBase(user, files, globals, lists, i) == SharedBase(user, files, globals, lists, j);
      assert SharedBase(user, files, globals, lists, i) != BaseOf(user, files, globals, lists[i])
          || SharedBase(user, files, globals, lists, j) != BaseOf(user, files, globals, lists[j]);
    }
  }

  /** Files for which two different lists give different bases. */
  lemma {:induction false} Telling(user: Layer, globals: seq<string>, a: seq<string>, b: seq<string>) returns (files: Files)
    requires LastOnly(a, globals) != LastOnly(b, globals)
    ensures BaseOf(user, files, globals, a) != BaseOf(user, files, globals, b)
  {
    hide MergeFiles, LastValue, LastOnly;
    var k := NewKey(user);
    LastOnlyNoRepeats(a, globals);
    LastOnlyNoRepeats(b, globals);
    var all := DifferentListsDiffer(LastOnly(a, globals), LastOnly(b, globals), k);
    var names := all - (set g | g in globals);
    files := NameFiles(names, k);
    forall x ensures x in LastOnly(a, globals) ==> x !in globals {
      LastOnlyIn(a, globals, x);
    }
    forall x ensures x in LastOnly(b, globals) ==> x !in globals {
      LastOnlyIn(b, globals, x);
    }
    DropGlobals(all, LastOnly(a, globals), globals, k);
    DropGlobals(all, LastOnly(b, globals), globals, k);
    LastOnlyEnough(files, a, globals, k);
    LastOnlyEnough(files, b, globals, k);
    var m := GlobalLayer(user, files, globals);
    NoGlobalContent(names, globals, k);
    MergeFilesAt(map[], files, globals, [], k);
    assert k !in m;
    MergeFilesAt(m, files, a, globals, k);
    MergeFilesAt(m, files, b, globals, k);
  }

  lemma {:induction false} NoGlobalContent(names: set<string>, globals: seq<string>, k: string)
    requires forall g :: g in globals ==> g !in names
    ensures LastValue(NameFiles(names, k), globals, [], k).None?
  {
    if globals != [] {
      assert globals == [globals[0]] + globals[1..];
      NoGlobalContent(names, globals[1..], k);
    }
  }

  lemma {:induction false} DropGlobals(names: set<string>, s: seq<string>, globals: seq<string>, k: string)
    requires forall x :: x in s ==> x !in globals
    ensures LastValue(NameFiles(names - (set g | g in globals), k), s, [], k) == LastValue(NameFiles(names, k), s, [], k)
  {
    if s != [] {
      assert s == [s[0]] + s[1..];
      DropGlobals(names, s[1..], globals, k);
    }
  }

  /** A key the config does not use. */
  lemma {:induction false} NewKey(user: Layer) returns (k: string)
    ensures k !in user
  {
    var lengths := set x | x in user :: |x|;
    var n := Longer(lengths);
    k := seq(n, i => 'a');
    assert k in user ==> |k| in lengths;
  }

  lemma {:induction false} Longer(lengths: set<nat>) returns (n: nat)
    ensures forall x :: x in lengths ==> x < n
    decreases lengths
  {
    if lengths == {} {
      n := 0;
    } else {
      var y :| y in lengths;
      var m := Longer(lengths - {y});
      assert forall x :: x in lengths ==> x == y || x in lengths - {y};
      n := if y < m then m else y + 1;
    }
  }

  /** File names as they are in practice: not empty, no U+0001. */
  ghost predicate PlainNames(names: seq<string>) {
    forall i :: 0 <= i < |names| ==> names[i] != "" && SEP !in names[i]
  }

  lemma {:induction false} JoinKeyInjective(a: seq<string>, b: seq<string>)
    requires PlainNames(a) && PlainNames(b) && JoinKey(a) == JoinKey(b)
    ensures a == b
  {
    if a == [] || b == [] {
      assert a != [] ==> |JoinKey(a)| > 0;
      assert b != [] ==> |JoinKey(b)| > 0;
    } else {
      HeadOfKey(a);
      HeadOfKey(b);
      assert a[0] == b[0];
      assert a == [a[0]] + a[1..] && b == [b[0]] + b[1..];
      if |a| > 1 && |b| > 1 {
        assert JoinKey(a)[|a[0]| + 1..] == JoinKey(a[1..]);
        assert JoinKey(b)[|b[0]| + 1..] == JoinKey(b[1..]);
        JoinKeyInjective(a[1..], b[1..]);
      }
    }
  }

  /** Text up to the first separator. */
  function UpToSep(s: string): string {
    if s == "" || s[0] == SEP then "" else [s[0]] + UpToSep(s[1..])
  }

  lemma {:induction false} HeadOfKey(a: seq<string>)
    requires PlainNames(a) && a != []
    ensures UpToSep(JoinKey(a)) == a[0]
    ensures |a| > 1 ==> |JoinKey(a)| > |a[0]|
  {
    if |a| > 1 {
      UpToSepIs(a[0], [SEP] + JoinKey(a[1..]));
      assert a[0] + [SEP] + JoinKey(a[1..]) == a[0] + ([SEP] + JoinKey(a[1..]));
    } else {
      UpToSepIs(a[0], "");
      assert a[0] + "" == a[0];
    }
  }

  lemma {:induction false} UpToSepIs(x: string, rest: string)
    requires SEP !in x && (rest == "" || rest[0] == SEP)
    ensures UpToSep(x + rest) == x
  {
    if x == "" {
      assert x + rest == rest;
    } else {
      assert (x + rest)[1..] == x[1..] + rest;
      UpToSepIs(x[1..], rest);
    }
  }

  /** With plain names sharing is always invisible. */
  lemma {:induction false} PlainNamesShareSafely(user: Layer, globals: seq<string>, lists: seq<seq<string>>)
    requires forall i :: 0 <= i < |lists| ==> PlainNames(lists[i])
    ensures SharingInvisible(user, globals, lists)
  {
    hide JoinKey, LastOnly, SharingInvisible, PlainNames;
    forall i, j | 0 <= i < |lists| && 0 <= j < |lists| && JoinKey(lists[i]) == JoinKey(lists[j])
      ensures LastOnly(lists[i], globals) == LastOnly(lists[j], globals)
    {
      JoinKeyInjective(lists[i], lists[j]);
    }
    SharingExactly(user, globals, lists);
  }

  /** Not in general: a name holding the separator can be taken for two files. */
  lemma {:induction false} SeparatorInNameCollides()
    ensures !SharingSafe([], [["a", "b"], [['a', SEP, 'b']]])
  {
    var x, y := ["a", "b"], [['a', SEP, 'b']];
    assert x[1..] == ["b"];
    assert JoinKey(x) == "a" + [SEP] + "b" == ['a', SEP, 'b'] == JoinKey(y);
    LastOnlyIn(x, [], "a");
    LastOnlyIn(y, [], "a");
    assert "a" in x;
    var lists := [x, y];
    assert lists[0] == x && lists[1] == y;
    assert LastOnly(lists[0], []) != LastOnly(lists[1], []);
  }

  // ---- not merging a global file again ----

  /** The base had global files been merged again in their place. */
  function Remerged(user: Layer, files: Files, globals: seq<string>, statics: seq<string>): Layer {
    MergeFiles(GlobalLayer(user, files, globals), files, statics, [])
  }

  /** The last value written at `k` by the global files and then the statics that are not global. */
  function SkippedValue(files: Files, globals: seq<string>, statics: seq<string>, k: string): Option<string> {
    var v := LastValue(files, statics, globals, k);
    if v.Some? then v else LastValue(files, globals, [], k)
  }

  /** Key by key: the last static file to write it, against what is written without the skipped ones. */
  lemma {:induction false} SkippingAtKeys(user: Layer, files: Files, globals: seq<string>, statics: seq<string>)
    ensures BaseOf(user, files, globals, statics) == Remerged(user, files, globals, statics) <==>
            forall k :: LastValue(files, statics, [], k).Some? ==>
              LastValue(files, statics, [], k) == SkippedValue(files, globals, statics, k)
  {
    hide MergeFiles, LastValue;
    var m := GlobalLayer(user, files, globals);
    var x, y := BaseOf(user, files, globals, statics), Remerged(user, files, globals, statics);
    forall k ensures
        ((k in x <==> k in y) && (k in x ==> x[k] == y[k])) <==>
        (LastValue(files, statics, [], k).Some? ==>
          LastValue(files, statics, [], k) == SkippedValue(files, globals, statics, k))
    {
      MergeFilesAt(map[], files, globals, [], k);
      MergeFilesAt(m, files, statics, globals, k);
      MergeFilesAt(m, files, statics, [], k);
      SkipWritesLess(files, statics, globals, k);
    }
  }

  /** What is skipped is in a global file. */
  lemma {:induction false} SkipWritesLess(files: Files, statics: seq<string>, globals: seq<string>, k: string)
    ensures LastValue(files, statics, globals, k).Some? ==> LastValue(files, statics, [], k).Some?
    ensures LastValue(files, statics, [], k).Some? ==> SkippedValue(files, globals, statics, k).Some?
  {
    if statics != [] {
      SkipWritesLess(files, statics[1..], globals, k);
      if statics[0] in globals && k in Content(files, statics[0]) {
        LastValueWriter(files, globals, [], k, statics[0]);
      }
    }
  }

  /** File `g` is the last global file to write `k`. */
  ghost predicate LastGlobalWriter(files: Files, globals: seq<string>, g: string, k: string) {
    exists i :: 0 <= i < |globals| && globals[i] == g
                && forall j :: i < j < |globals| ==> k !in Content(files, globals[j])
  }

  /** No later global file and no earlier static file of its own writes a key of a skipped file. */
  ghost predicate Undisturbed(files: Files, globals: seq<string>, statics: seq<string>) {
    forall i, k :: 0 <= i < |statics| && statics[i] in globals && k in Content(files, statics[i]) ==>
      && LastGlobalWriter(files, globals, statics[i], k)
      && forall j :: 0 <= j < i && statics[j] !in globals ==> k !in Content(files, statics[j])
  }

  /** That is enough; later static files win either way. */
  lemma {:induction false} SkippingUndisturbed(user: Layer, files: Files, globals: seq<string>, statics: seq<string>)
    requires Undisturbed(files, globals, statics)
    ensures BaseOf(user, files, globals, statics) == Remerged(user, files, globals, statics)
  {
    hide MergeFiles, LastValue;
    forall k | LastValue(files, statics, [], k).Some?
      ensures LastValue(files, statics, [], k) == SkippedValue(files, globals, statics, k)
    {
      var i := WriterAt(files, statics, k);
      if statics[i] in globals {
        NoOtherStatic(files, statics, globals, k);
        var g :| 0 <= g < |globals| && globals[g] == statics[i]
                 && forall j :: g < j < |globals| ==> k !in Content(files, globals[j]);
        LastWriter(files, globals, [], g, k);
      } else {
        LastWriter(files, statics, globals, i, k);
      }
    }
    SkippingAtKeys(user, files, globals, statics);
  }

  /** The last file of a list to write a key. */
  lemma {:induction false} WriterAt(files: Files, names: seq<string>, k: string) returns (i: nat)
    requires LastValue(files, names, [], k).Some?
    ensures i < |names| && k in Content(files, names[i])
    ensures forall j :: i < j < |names| ==> k !in Content(files, names[j])
    ensures LastValue(files, names, [], k) == Some(Content(files, names[i])[k])
  {
    var rest := names[1..];
    if LastValue(files, rest, [], k).Some? {
      var m := WriterAt(files, rest, k);
      i := m + 1;
      assert forall j :: 1 <= j < |names| ==> names[j] == rest[j - 1];
    } else {
      i := 0;
      forall j | 0 < j < |names| ensures k !in Content(files, names[j]) {
        if k in Content(files, names[j]) {
          assert names[j] == rest[j - 1];
          LastValueWriter(files, rest, [], k, names[j]);
        }
      }
    }
  }

  lemma {:induction false} NoOtherStatic(files: Files, statics: seq<string>, globals: seq<string>, k: string)
    requires forall j :: 0 <= j < |statics| && statics[j] !in globals ==> k !in Content(files, statics[j])
    ensures LastValue(files, statics, globals, k).None?
  {
    if statics != [] {
      NoOtherStatic(files, statics[1..], globals, k);
    }
  }

  lemma {:induction false} LastWriter(files: Files, names: seq<string>, skip: seq<string>, i: nat, k: string)
    requires i < |names| && names[i] !in skip && k in Content(files, names[i])
    requires forall j :: i < j < |names| ==> k !in Content(files, names[j])
    ensures LastValue(files, names, skip, k) == Some(Content(files, names[i])[k])
  {
    if i == 0 {
      NoOtherStatic(files, names[1..], skip, k);
    } else {
      LastWriter(files, names[1..], skip, i - 1, k);
    }
  }

  // ---- which order of files is as good as another ----

  lemma {:induction false} LastValueConcat(files: Files, a: seq<string>, b: seq<string>, k: string)
    ensures var v := LastValue(files, b, [], k);
            LastValue(files, a + b, [], k) == if v.Some? then v else LastValue(files, a, [], k)
  {
    if a == [] {
      assert a + b == b;
    } else {
      assert (a + b)[1..] == a[1..] + b;
      LastValueConcat(files, a[1..], b, k);
    }
  }

  lemma {:induction false} SameMerge(user: Layer, files: Files, a: seq<string>, b: seq<string>)
    requires LastOnly(a, []) == LastOnly(b, [])
    ensures MergeFiles(user, files, a, []) == MergeFiles(user, files, b, [])
  {
    hide MergeFiles, LastValue, LastOnly;
    var x, y := MergeFiles(user, files, a, []), MergeFiles(user, files, b, []);
    forall k ensures (k in x <==> k in y) && (k in x ==> x[k] == y[k]) {
      MergesAt(user, files, a, b, k);
    }
  }

  /** Files for which two lists that name different files last, or in another order, merge to different layers. */
  lemma {:induction false} OtherMerge(user: Layer, a: seq<string>, b: seq<string>) returns (files: Files)
    requires LastOnly(a, []) != LastOnly(b, [])
    ensures MergeFiles(user, files, a, []) != MergeFiles(user, files, b, [])
  {
    hide MergeFiles, LastValue, LastOnly;
    var k := NewKey(user);
    LastOnlyNoRepeats(a, []);
    LastOnlyNoRepeats(b, []);
    var names := DifferentListsDiffer(LastOnly(a, []), LastOnly(b, []), k);
    files := NameFiles(names, k);
    MergesAt(user, files, a, b, k);
  }

  lemma {:induction false} MergesAt(user: Layer, files: Files, a: seq<string>, b: seq<string>, k: string)
    ensures var x, y := MergeFiles(user, files, a, []), MergeFiles(user, files, b, []);
            var v, w := LastValue(files, LastOnly(a, []), [], k), LastValue(files, LastOnly(b, []), [], k);
            && (v == w ==> (k in x <==> k in y) && (k in x ==> x[k] == y[k]))
            && (v != w && k !in user ==> !(k in x && k in y && x[k] == y[k]) && (k in x || k in y))
  {
    hide MergeFiles, LastValue, LastOnly;
    LastOnlyEnough(files, a, [], k);
    LastOnlyEnough(files, b, [], k);
    MergeFilesAt(user, files, a, [], k);
    MergeFilesAt(user, files, b, [], k);
  }

  /** A base is one merge: the global files, then the static ones that are not global. */
  lemma {:induction false} BaseIsOneMerge(user: Layer, files: Files, globals: seq<string>, statics: seq<string>)
    ensures BaseOf(user, files, globals, statics) ==
            MergeFiles(user, files, globals + LastOnly(statics, globals), [])
    ensures Remerged(user, files, globals, statics) == MergeFiles(user, files, globals + statics, [])
  {
    hide MergeFiles, LastValue, LastOnly;
    var m, kept := GlobalLayer(user, files, globals), LastOnly(statics, globals);
    var x, y := BaseOf(user, files, globals, statics), MergeFiles(user, files, globals + kept, []);
    var v, w := Remerged(user, files, globals, statics), MergeFiles(user, files, globals + statics, []);
    forall k ensures (k in x <==> k in y) && (k in x ==> x[k] == y[k]) && (k in v <==> k in w) && (k in v ==> v[k] == w[k]) {
      LastOnlyEnough(files, statics, globals, k);
      LastValueConcat(files, globals, kept, k);
      LastValueConcat(files, globals, statics, k);
      MergeFilesAt(map[], files, globals, [], k);
      MergeFilesAt(m, files, statics, globals, k);
      MergeFilesAt(m, files, statics, [], k);
      MergeFilesAt(user, files, globals + kept, [], k);
      MergeFilesAt(user, files, globals + statics, [], k);
    }
  }

  /**
  Skipping static files that are also global equals merging them again, whatever
  the files hold, exactly when both ways name the same files last in the same
  order: a condition on the two lists alone.
  */
  lemma {:induction false} SkippingExactly(user: Layer, globals: seq<string>, statics: seq<string>)
    ensures (forall files: Files ::
               BaseOf(user, files, globals, statics) == Remerged(user, files, globals, statics)) <==>
            LastOnly(globals + LastOnly(statics, globals), []) == LastOnly(globals + statics, [])
  {
    hide MergeFiles, LastOnly, BaseOf, Remerged;
    var a, b := globals + LastOnly(statics, globals), globals + statics;
    if LastOnly(a, []) == LastOnly(b, []) {
      forall files: Files ensures BaseOf(user, files, globals, statics) == Remerged(user, files, globals, statics) {
        BaseIsOneMerge(user, files, globals, statics);
        SameMerge(user, files, a, b);
      }
    } else {
      var files := OtherMerge(user, a, b);
      BaseIsOneMerge(user, files, globals, statics);
      assert BaseOf(user, files, globals, statics) != Remerged(user, files, globals, statics);
    }
  }

  /** It does make a difference: a global file named again by a route after another global file has its key. */
  lemma {:induction false} SkippingCanDiffer()
    ensures var files := map["a" := map["k" := "1"], "b" := map["k" := "2"]];
            && BaseOf(map[], files, ["a", "b"], ["a"]) == map["k" := "2"]
            && Remerged(map[], files, ["a", "b"], ["a"]) == map["k" := "1"]
  {
    var files := map["a" := map["k" := "1"], "b" := map["k" := "2"]];
    var g := ["a", "b"];
    assert g[..1] == ["a"] && ["a"][..0] == [];
    assert MergeFiles(map[], files, ["a"], []) == map["k" := "1"];
    assert MergeFiles(map[], files, g, []) == map["k" := "2"];
    var m := GlobalLayer(map[], files, g);
    assert m == map["k" := "2"];
    assert MergeFiles(m, files, [], g) == m && MergeFiles(m, files, [], []) == m;
    assert ["a"][0] in g;
  }

  // ---- params files as a route declares them ----

  /** `str::replace`, for text that is not empty. */
  function Replace(s: string, what: string, text: string): string
    requires what != ""
    decreases |s|
  {
    if s == "" then ""
    else if what <= s then text + Replace(s[|what|..], what, text)
    else [s[0]] + Replace(s[1..], what, text)
  }

  /** The first place of the text is replaced and the rest treated alike; where there is none nothing changes. */
  lemma {:induction false} ReplaceExactly(a: string, what: string, b: string, text: string)
    requires what != "" && forall j :: 0 <= j < |a| ==> !(what <= (a + what + b)[j..])
    ensures Replace(a + what + b, what, text) == a + text + Replace(b, what, text)
  {
    var s := a + what + b;
    if a == "" {
      assert s[|what|..] == b && what <= s;
    } else {
      assert s[0..] == s;
      var t := a[1..] + what + b;
      assert s[1..] == t;
      forall j | 0 <= j < |a| - 1 ensures !(what <= t[j..]) {
        assert t[j..] == s[j + 1..];
      }
      ReplaceExactly(a[1..], what, b, text);
      assert [s[0]] + (a[1..] + text + Replace(b, what, text)) == a + text + Replace(b, what, text);
    }
  }

  lemma {:induction false} ReplaceNone(s: string, what: string, text: string)
    requires what != "" && forall j :: 0 <= j < |s| ==> !(what <= s[j..])
    ensures Replace(s, what, text) == s
  {
    if s != "" {
      assert s[0..] == s;
      forall j | 0 <= j < |s| - 1 ensures !(what <= s[1..][j..]) {
        assert s[1..][j..] == s[j + 1..];
      }
      ReplaceNone(s[1..], what, text);
    }
  }

  /** A file name with its placeholders filled in, one path parameter after another. */
  function Resolve(name: string, ps: Entries): string {
    if ps == [] then name
    else Replace(Resolve(name, ps[..|ps| - 1]), "{" + ps[|ps| - 1].0 + "}", ps[|ps| - 1].1)
  }

  predicate Placeholder(name: string) { '{' in name }

  function StaticNames(params: seq<string>): seq<string> {
    if params == [] then []
    else StaticNames(params[..|params| - 1]) + if Placeholder(params[|params| - 1]) then [] else [params[|params| - 1]]
  }

  /** The files a request reads itself, as resolved. */
  function DynamicNames(params: seq<string>, ps: Entries): seq<string> {
    if params == [] then []
    else
      DynamicNames(params[..|params| - 1], ps)
      + if Placeholder(params[|params| - 1]) then [Resolve(params[|params| - 1], ps)] else []
  }

  function AllNames(params: seq<string>, ps: Entries): seq<string> {
    if params == [] then [] else AllNames(params[..|params| - 1], ps) + [Resolve(params[|params| - 1], ps)]
  }

  /** The static names are, in order, exactly those of the first `n` without a placeholder: `at` says which. */
  lemma {:induction false} StaticExactly(params: seq<string>, n: nat) returns (at: seq<nat>)
    requires n <= |params|
    ensures |at| == |StaticNames(params[..n])|
    ensures forall i :: 0 <= i < |at| ==> at[i] < n && StaticNames(params[..n])[i] == params[at[i]]
    ensures forall i, j :: 0 <= i < j < |at| ==> at[i] < at[j]
    ensures forall k :: 0 <= k < n ==> (k in at <==> '{' !in params[k])
  {
    at := [];
    if n > 0 {
      var before := StaticExactly(params, n - 1);
      assert params[..n][..n - 1] == params[..n - 1];
      if '{' in params[n - 1] {
        at := before;
      } else {
        at := before + [n - 1];
      }
    }
  }

  /** And the files a request reads are the others, in order, with their placeholders filled in. */
  lemma {:induction false} DynamicExactly(params: seq<string>, ps: Entries, n: nat) returns (at: seq<nat>)
    requires n <= |params|
    ensures |at| == |DynamicNames(params[..n], ps)|
    ensures forall i :: 0 <= i < |at| ==> at[i] < n && DynamicNames(params[..n], ps)[i] == Resolve(params[at[i]], ps)
    ensures forall i, j :: 0 <= i < j < |at| ==> at[i] < at[j]
    ensures forall k :: 0 <= k < n ==> (k in at <==> '{' in params[k])
  {
    hide Resolve;
    at := [];
    if n > 0 {
      var before := DynamicExactly(params, ps, n - 1);
      assert params[..n][..n - 1] == params[..n - 1];
      if '{' in params[n - 1] {
        at := before + [n - 1];
      } else {
        at := before;
      }
    }
  }

  lemma {:induction false} ReplaceNothing(s: string, what: string, text: string)
    requires what != "" && what[0] !in s
    ensures Replace(s, what, text) == s
  {
    if s != "" {
      ReplaceNothing(s[1..], what, text);
    }
  }

  /** Resolving changes no static name, so one list serves for both kinds. */
  lemma {:induction false} ResolveStatic(name: string, ps: Entries)
    requires !Placeholder(name)
    ensures Resolve(name, ps) == name
  {
    if ps != [] {
      ResolveStatic(name, ps[..|ps| - 1]);
      ReplaceNothing(name, "{" + ps[|ps| - 1].0 + "}", ps[|ps| - 1].1);
    }
  }

  /** What the params files leave: the route's base, and over it the files read for the request. */
  function LayeredParams(user: Layer, files: Files, globals: seq<string>, params: seq<string>, ps: Entries): Layer {
    MergeFiles(BaseOf(user, files, globals, StaticNames(params)), files, DynamicNames(params, ps), [])
  }

  /** One flat merge in the order of declaration. */
  function DeclaredParams(user: Layer, files: Files, globals: seq<string>, params: seq<string>, ps: Entries): Layer {
    MergeFiles(GlobalLayer(user, files, globals), files, AllNames(params, ps), [])
  }

  lemma {:induction false} MergeConcat(m: Layer, files: Files, a: seq<string>, b: seq<string>)
    ensures MergeFiles(m, files, a + b, []) == MergeFiles(MergeFiles(m, files, a, []), files, b, [])
  {
    if b == [] {
      assert a + b == a;
    } else {
      assert (a + b)[..|a + b| - 1] == a + b[..|b| - 1];
      MergeConcat(m, files, a, b[..|b| - 1]);
    }
  }

  lemma {:induction false} GlobalsFirst(user: Layer, files: Files, globals: seq<string>, b: seq<string>)
    ensures MergeFiles(GlobalLayer(user, files, globals), files, b, []) == MergeFiles(user, files, globals + b, [])
  {
    hide MergeFiles, LastValue, LastOnly;
    BaseIsOneMerge(user, files, globals, b);
  }

  /**
  The layers equal one merge in the order of declaration, whatever the files
  hold, exactly when both orders name the same files last in the same order.
  */
  lemma {:induction false} DeclaredOrderExactly(user: Layer, globals: seq<string>, params: seq<string>, ps: Entries)
    ensures (forall files: Files ::
               LayeredParams(user, files, globals, params, ps) == DeclaredParams(user, files, globals, params, ps)) <==>
            LastOnly(globals + LastOnly(StaticNames(params), globals) + DynamicNames(params, ps), []) ==
            LastOnly(globals + AllNames(params, ps), [])
  {
    hide LastOnly, LayeredParams, DeclaredParams, StaticNames, DynamicNames, AllNames;
    var a := globals + LastOnly(StaticNames(params), globals) + DynamicNames(params, ps);
    var b := globals + AllNames(params, ps);
    if LastOnly(a, []) == LastOnly(b, []) {
      forall files: Files
        ensures LayeredParams(user, files, globals, params, ps) == DeclaredParams(user, files, globals, params, ps)
      {
        ParamsAreMerges(user, files, globals, params, ps);
        SameMerge(user, files, a, b);
      }
    } else {
      var files := OtherMerge(user, a, b);
      ParamsAreMerges(user, files, globals, params, ps);
      assert LayeredParams(user, files, globals, params, ps) != DeclaredParams(user, files, globals, params, ps);
    }
  }

  lemma {:induction false} ParamsAreMerges(user: Layer, files: Files, globals: seq<string>, params: seq<string>, ps: Entries)
    ensures LayeredParams(user, files, globals, params, ps) ==
            MergeFiles(user, files, globals + LastOnly(StaticNames(params), globals) + DynamicNames(params, ps), [])
    ensures DeclaredParams(user, files, globals, params, ps) ==
            MergeFiles(user, files, globals + AllNames(params, ps), [])
  {
    hide MergeFiles, LastOnly, BaseOf, GlobalLayer, StaticNames, DynamicNames, AllNames;
    BaseIsOneMerge(user, files, globals, StaticNames(params));
    MergeConcat(user, files, globals + LastOnly(StaticNames(params), globals), DynamicNames(params, ps));
    GlobalsFirst(user, files, globals, AllNames(params, ps));
  }

  /** A file with a placeholder beats a static one declared after it. */
  lemma {:induction false} PlaceholderBeatsLaterStatic()
    ensures var files := map["a" := map["k" := "1"], "b" := map["k" := "2"]];
            var params, ps := ["{p}", "b"], [("p", "a")];
            && LayeredParams(map[], files, [], params, ps) == map["k" := "1"]
            && DeclaredParams(map[], files, [], params, ps) == map["k" := "2"]
  {
    hide StaticNames, DynamicNames, AllNames, MergeFiles, LastOnly;
    var files := map["a" := map["k" := "1"], "b" := map["k" := "2"]];
    var params, ps := ["{p}", "b"], [("p", "a")];
    SampleNames();
    OneMerge(map[], files, "b");
    OneMerge(map["k" := "2"], files, "a");
    OneMerge(map[], files, "a");
    OneMerge(map["k" := "1"], files, "b");
    MergeConcat(map[], files, ["a"], ["b"]);
    assert ["a"] + ["b"] == ["a", "b"];
    NoMerge(map[], files);
    var none: Layer := map[];
    assert none + none == none;
    assert none + map["k" := "2"] == map["k" := "2"] && none + map["k" := "1"] == map["k" := "1"];
    assert map["k" := "2"] + map["k" := "1"] == map["k" := "1"] && map["k" := "1"] + map["k" := "2"] == map["k" := "2"];
    assert GlobalLayer(none, files, []) == none;
    assert BaseOf(none, files, [], ["b"]) == map["k" := "2"];
  }

  lemma {:induction false} NoMerge(m: Layer, files: Files)
    ensures MergeFiles(m, files, [], []) == m
  {
  }

  lemma {:induction false} SampleNames()
    ensures StaticNames(["{p}", "b"]) == ["b"]
    ensures DynamicNames(["{p}", "b"], [("p", "a")]) == ["a"]
    ensures AllNames(["{p}", "b"], [("p", "a")]) == ["a", "b"]
  {
    var params, ps := ["{p}", "b"], [("p", "a")];
    assert Resolve("{p}", ps) == "a" by {
      assert ps[..0] == [];
      assert "{" + "p" + "}" == "{p}";
      assert "{p}"[3..] == "";
    }
    ResolveStatic("b", ps);
    hide Resolve, Replace;
    assert params[..1] == ["{p}"] && ["{p}"][..0] == [];
    assert '{' in "{p}" by { assert "{p}"[0] == '{'; }
  }

  lemma {:induction false} OneMoreFile(m: Layer, files: Files, names: seq<string>, name: string)
    ensures MergeFiles(m, files, names + [name], []) ==
            if name in files then MergeFiles(m, files, names, []) + files[name] else MergeFiles(m, files, names, [])
  {
    MergeConcat(m, files, names, [name]);
    OneMerge(MergeFiles(m, files, names, []), files, name);
    assert MergeFiles(m, files, names, []) + map[] == MergeFiles(m, files, names, []);
  }

  lemma {:induction false} OneMerge(m: Layer, files: Files, name: string)
    ensures MergeFiles(m, files, [name], []) == m + Content(files, name)
  {
    assert [name][..0] == [];
  }

  // ---- one request ----

  /** What varies per request, in the order it is written. */
  datatype Sources = Sources(
    pathParams: Entries, query: Entries, queryText: string,
    form: Entries,                  // empty unless a urlencoded POST
    cookiesText: string, path: string, datetime: string, year: string,
    claims: Claims, flash: Option<string>, token: string)

  /** What the authentication header carries. */
  datatype Claims = Claims(username: Option<string>, sub: Option<string>, groups: Option<string>, roles: Option<string>)

  function Given(key: string, v: Option<string>): Entries { if v.Some? then [(key, v.value)] else [] }

  function AuthEntries(s: Sources): (es: Entries)
    ensures forall i :: 0 <= i < |es| ==> "auth_" <= es[i].0
  {
    var name := if s.claims.username.Some? then s.claims.username else s.claims.sub;
    Given("auth_username", name) + Given("auth_sub", s.claims.sub)
    + Given("auth_groups", s.claims.groups) + Given("auth_roles", s.claims.roles)
  }

  function BuiltIns(s: Sources): Entries {
    [("request_path", s.path), ("datetime", s.datetime), ("year", s.year)]
  }

  /** Everything after the params files, up to the built-in keys. */
  function FromRequest(s: Sources): Entries {
    s.pathParams + s.query + [("query", s.queryText)] + s.form + [("cookies", s.cookiesText)]
  }

  function FlashEntry(s: Sources): Entries {
    if s.flash.Some? then [("flash", s.flash.value)] else []
  }

  /** The flat merge of all sources in order; the CSRF token is only a default. */
  function FlatDict(base: Layer, files: Files, params: seq<string>, s: Sources): Layer {
    var m := Written(MergeFiles(base, files, DynamicNames(params, s.pathParams), []),
                     FromRequest(s) + BuiltIns(s) + AuthEntries(s) + FlashEntry(s));
    if "csrf_token" in m then m else m["csrf_token" := s.token]
  }

  method InsertAll(d: Dict, es: Entries)
    modifies d
    ensures d.Flat() == Written(old(d.Flat()), es)
  {
    var i := 0;
    while i < |es|
      invariant i <= |es| && d.Flat() == Written(old(d.Flat()), es[..i])
    {
      assert es[..i + 1][..i] == es[..i];
      d.Insert(es[i].0, es[i].1);
      i := i + 1;
    }
    assert es[..i] == es;
  }

  /** The part of `m` already inserted. */
  function Part(m: Layer, left: set<string>): Layer { map k | k in m && k !in left :: m[k] }

  lemma {:induction false} PartStep(start: Layer, m: Layer, left: set<string>, k: string)
    requires k in m && k in left
    ensures (start + Part(m, left))[k := m[k]] == start + Part(m, left - {k})
  {
  }

  lemma {:induction false} PartEnds(start: Layer, m: Layer)
    ensures start + Part(m, m.Keys) == start && Part(m, {}) == m
  {
  }

  method InsertLayer(d: Dict, m: Layer)
    modifies d
    ensures d.Flat() == old(d.Flat()) + m
  {
    hide Part;
    ghost var start := d.Flat();
    PartEnds(start, m);
    var left := m.Keys;
    while left != {}
      invariant left <= m.Keys && d.Flat() == start + Part(m, left)
      decreases left
    {
      var k :| k in left;
      PartStep(start, m, left, k);
      d.Insert(k, m[k]);
      left := left - {k};
    }
  }

  /** The files whose name holds a placeholder, in order; the others are in the base. */
  method InsertFiles(d: Dict, files: Files, params: seq<string>, ps: Entries)
    modifies d
    ensures d.Flat() == MergeFiles(old(d.Flat()), files, DynamicNames(params, ps), [])
  {
    hide Resolve, Placeholder, MergeFiles;
    ghost var start := d.Flat();
    NoMerge(start, files);
    var i := 0;
    while i < |params|
      invariant i <= |params| && d.Flat() == MergeFiles(start, files, DynamicNames(params[..i], ps), [])
    {
      assert params[..i + 1][..i] == params[..i];
      if Placeholder(params[i]) {
        var name := Resolve(params[i], ps);
        OneMoreFile(start, files, DynamicNames(params[..i], ps), name);
        if name in files {
          InsertLayer(d, files[name]);
        }
      } else {
        assert DynamicNames(params[..i], ps) + [] == DynamicNames(params[..i], ps);
      }
      i := i + 1;
    }
    assert params[..i] == params;
  }

  method BuildDict(base: Layer, files: Files, params: seq<string>, s: Sources) returns (d: Dict)
    ensures fresh(d) && d.base == Some(base) && d.Flat() == FlatDict(base, files, params, s)
  {
    hide Written, MergeFiles, DynamicNames, FromRequest, BuiltIns, AuthEntries;
    d := new Dict(Some(base));
    assert base + map[] == base;
    InsertFiles(d, files, params, s.pathParams);
    ghost var start := d.Flat();
    InsertAll(d, s.pathParams);
    InsertAll(d, s.query);
    d.Insert("query", s.queryText);
    InsertAll(d, s.form);
    d.Insert("cookies", s.cookiesText);
    FromRequestSteps(start, s);
    ghost var before := d.Flat();
    d.Insert("request_path", s.path);
    d.Insert("datetime", s.datetime);
    d.Insert("year", s.year);
    BuiltInSteps(before, s);
    InsertAll(d, AuthEntries(s));
    if s.flash.Some? {
      d.Insert("flash", s.flash.value);
    }
    AllSteps(start, s);
    var token := d.Get("csrf_token");
    if token.None? {
      d.Insert("csrf_token", s.token);
    }
  }

  lemma {:induction false} WrittenOne(m: Layer, k: string, v: string)
    ensures Written(m, [(k, v)]) == m[k := v]
  {
    assert [(k, v)][..0] == [];
    assert Written(m, []) == m;
  }

  lemma {:induction false} FromRequestSteps(m: Layer, s: Sources)
    ensures Written(m, FromRequest(s)) ==
            Written(Written(Written(m, s.pathParams), s.query)["query" := s.queryText], s.form)["cookies" := s.cookiesText]
  {
    var a, b := s.pathParams + s.query, [("query", s.queryText)];
    WrittenConcat(m, s.pathParams, s.query);
    WrittenConcat(m, a, b);
    WrittenOne(Written(m, a), "query", s.queryText);
    WrittenConcat(m, a + b, s.form);
    WrittenConcat(m, a + b + s.form, [("cookies", s.cookiesText)]);
    WrittenOne(Written(m, a + b + s.form), "cookies", s.cookiesText);
  }

  lemma {:induction false} BuiltInSteps(m: Layer, s: Sources)
    ensures Written(m, BuiltIns(s)) == m["request_path" := s.path]["datetime" := s.datetime]["year" := s.year]
  {
    var a, b, c := [("request_path", s.path)], [("datetime", s.datetime)], [("year", s.year)];
    assert BuiltIns(s) == a + b + c;
    WrittenConcat(m, a, b);
    WrittenConcat(m, a + b, c);
    WrittenOne(m, "request_path", s.path);
    WrittenOne(Written(m, a), "datetime", s.datetime);
    WrittenOne(Written(m, a + b), "year", s.year);
  }

  lemma {:induction false} AllSteps(m: Layer, s: Sources)
    ensures Written(m, FromRequest(s) + BuiltIns(s) + AuthEntries(s) + FlashEntry(s)) ==
            var r := Written(Written(Written(m, FromRequest(s)), BuiltIns(s)), AuthEntries(s));
            if s.flash.Some? then r["flash" := s.flash.value] else r
  {
    var f, b := FromRequest(s), BuiltIns(s);
    WrittenConcat(m, f, b);
    WrittenConcat(m, f + b, AuthEntries(s));
    WrittenConcat(m, f + b + AuthEntries(s), FlashEntry(s));
    if s.flash.Some? {
      WrittenOne(Written(m, f + b + AuthEntries(s)), "flash", s.flash.value);
    }
  }

  lemma {:induction false} WrittenElsewhere(m: Layer, es: Entries, k: string)
    requires forall i :: 0 <= i < |es| ==> es[i].0 != k
    ensures k in Written(m, es) <==> k in m
    ensures k in m ==> Written(m, es)[k] == m[k]
  {
    if es != [] {
      WrittenElsewhere(m, es[..|es| - 1], k);
    }
  }

  /** The last of some entries for a key. */
  function Look(es: Entries, k: string): Option<string> {
    if es == [] then None
    else if es[|es| - 1].0 == k then Some(es[|es| - 1].1)
    else Look(es[..|es| - 1], k)
  }

  lemma {:induction false} WrittenAt(m: Layer, es: Entries, k: string)
    ensures k in Written(m, es) <==> k in m || Look(es, k).Some?
    ensures Look(es, k).Some? ==> Written(m, es)[k] == Look(es, k).value
    ensures Look(es, k).None? && k in m ==> Written(m, es)[k] == m[k]
  {
    if es != [] {
      WrittenAt(m, es[..|es| - 1], k);
    }
  }

  function Or(a: Option<string>, b: Option<string>): Option<string> { if a.Some? then a else b }

  lemma {:induction false} LookConcat(a: Entries, b: Entries, k: string)
    ensures Look(a + b, k) == Or(Look(b, k), Look(a, k))
  {
    if b == [] {
      assert a + b == a;
    } else {
      assert (a + b)[..|a + b| - 1] == a + b[..|b| - 1];
      LookConcat(a, b[..|b| - 1], k);
    }
  }

  lemma {:induction false} LookGiven(key: string, v: Option<string>, k: string)
    ensures Look(Given(key, v), k) == if k == key then v else None
  {
    var none: Entries := [];
    assert v.Some? ==> [(key, v.value)][..0] == none;
  }

  /** The claims under their own keys; the subject stands in for a missing user name. */
  function ClaimAt(c: Claims, k: string): Option<string> {
    match k
    case "auth_username" => if c.username.Some? then c.username else c.sub
    case "auth_sub" => c.sub
    case "auth_groups" => c.groups
    case "auth_roles" => c.roles
    case _ => None
  }

  lemma {:induction false} AuthAt(s: Sources, k: string)
    ensures Look(AuthEntries(s), k) == ClaimAt(s.claims, k)
  {
    hide Given, Look;
    var name := if s.claims.username.Some? then s.claims.username else s.claims.sub;
    var a, b, c, d := Given("auth_username", name), Given("auth_sub", s.claims.sub),
                      Given("auth_groups", s.claims.groups), Given("auth_roles", s.claims.roles);
    assert AuthEntries(s) == a + b + c + d;
    LookGiven("auth_username", name, k);
    LookGiven("auth_sub", s.claims.sub, k);
    LookGiven("auth_groups", s.claims.groups, k);
    LookGiven("auth_roles", s.claims.roles, k);
    LookConcat(a, b, k);
    LookConcat(a + b, c, k);
    LookConcat(a + b + c, d, k);
  }

  function At(m: Layer, k: string): Option<string> { if k in m then Some(m[k]) else None }

  function Only(key: string, v: string, k: string): Option<string> { if k == key then Some(v) else None }

  /** Who wins a key: flash, claims, built-in keys, cookies, form, query, path, params files, in this order. */
  function Winner(params: Layer, s: Sources, k: string): Option<string> {
    Or(if k == "flash" then s.flash else None,
    Or(ClaimAt(s.claims, k),
    Or(Only("year", s.year, k),
    Or(Only("datetime", s.datetime, k),
    Or(Only("request_path", s.path, k),
    Or(Only("cookies", s.cookiesText, k),
    Or(Look(s.form, k),
    Or(Only("query", s.queryText, k),
    Or(Look(s.query, k),
    Or(Look(s.pathParams, k),
    At(params, k)))))))))))
  }

  lemma {:induction false} LookOne(key: string, v: string, k: string)
    ensures Look([(key, v)], k) == Only(key, v, k)
  {
    LookGiven(key, Some(v), k);
  }

  lemma {:induction false} RequestAt(s: Sources, k: string)
    ensures Look(FromRequest(s), k) ==
            Or(Only("cookies", s.cookiesText, k),
            Or(Look(s.form, k),
            Or(Only("query", s.queryText, k),
            Or(Look(s.query, k), Look(s.pathParams, k)))))
  {
    hide Look;
    var a, b, c, d := s.pathParams, s.query, [("query", s.queryText)], s.form;
    LookConcat(a, b, k);
    LookConcat(a + b, c, k);
    LookConcat(a + b + c, d, k);
    LookConcat(a + b + c + d, [("cookies", s.cookiesText)], k);
    LookOne("query", s.queryText, k);
    LookOne("cookies", s.cookiesText, k);
  }

  lemma {:induction false} BuiltInAt(s: Sources, k: string)
    ensures Look(BuiltIns(s), k) ==
            Or(Only("year", s.year, k), Or(Only("datetime", s.datetime, k), Only("request_path", s.path, k)))
  {
    hide Look;
    var a, b, c := [("request_path", s.path)], [("datetime", s.datetime)], [("year", s.year)];
    assert BuiltIns(s) == a + b + c;
    LookConcat(a, b, k);
    LookConcat(a + b, c, k);
    LookOne("request_path", s.path, k);
    LookOne("datetime", s.datetime, k);
    LookOne("year", s.year, k);
  }

  /** What a request's dictionary holds at a key, and nothing else; the token only where nothing is. */
  lemma {:induction false} DictAt(base: Layer, files: Files, params: seq<string>, s: Sources, k: string)
    ensures var read := MergeFiles(base, files, DynamicNames(params, s.pathParams), []);
            At(FlatDict(base, files, params, s), k) ==
            Or(Winner(read, s, k), if k == "csrf_token" then Some(s.token) else None)
  {
    hide Look, Written, MergeFiles, DynamicNames, FromRequest, BuiltIns, AuthEntries, ClaimAt;
    var read := MergeFiles(base, files, DynamicNames(params, s.pathParams), []);
    var a, b, c, d := FromRequest(s), BuiltIns(s), AuthEntries(s), FlashEntry(s);
    LookConcat(a, b, k);
    LookConcat(a + b, c, k);
    LookConcat(a + b + c, d, k);
    RequestAt(s, k);
    BuiltInAt(s, k);
    AuthAt(s, k);
    LookGiven("flash", s.flash, k);
    assert FlashEntry(s) == Given("flash", s.flash);
    WrittenAt(read, a + b + c + d, k);
    WrittenAt(read, a + b + c + d, "csrf_token");
  }

  /** No params file, static or dynamic, path parameter, query, form field or cookie can change a built-in key. */
  lemma {:induction false} BuiltInsHold(base: Layer, files: Files, params: seq<string>, s: Sources, i: nat)
    requires i < 3
    ensures var (k, v) := BuiltIns(s)[i];
            k in FlatDict(base, files, params, s) && FlatDict(base, files, params, s)[k] == v
  {
    hide Written, MergeFiles, DynamicNames, FromRequest, AuthEntries;
    var (k, v) := BuiltIns(s)[i];
    var m := MergeFiles(base, files, DynamicNames(params, s.pathParams), []);
    AllSteps(m, s);
    BuiltInSteps(Written(m, FromRequest(s)), s);
    var n := Written(Written(m, FromRequest(s)), BuiltIns(s));
    assert k in n && n[k] == v;
    assert !("auth_" <= k) by { assert k[0] != 'a'; }
    WrittenElsewhere(n, AuthEntries(s), k);
  }

  lemma {:induction false} AroundFormField(s: Sources, j: nat) returns (head: Entries, tail: Entries)
    requires j < |s.form|
    requires forall i :: j < i < |s.form| ==> s.form[i].0 != "csrf_token"
    ensures FromRequest(s) + BuiltIns(s) + AuthEntries(s) + FlashEntry(s) == head + [s.form[j]] + tail
    ensures forall i :: 0 <= i < |tail| ==> tail[i].0 != "csrf_token"
  {
    hide AuthEntries, FlashEntry, BuiltIns;
    head := s.pathParams + s.query + [("query", s.queryText)] + s.form[..j];
    tail := s.form[j + 1..] + [("cookies", s.cookiesText)] + (BuiltIns(s) + AuthEntries(s) + FlashEntry(s));
    assert s.form == s.form[..j] + [s.form[j]] + s.form[j + 1..];
    NoToken(s);
  }

  lemma {:induction false} NoToken(s: Sources)
    ensures forall e :: e in BuiltIns(s) + AuthEntries(s) + FlashEntry(s) ==> e.0 != "csrf_token"
  {
    hide AuthEntries;
    assert !("auth_" <= "csrf_token") by { assert "auth_"[0] != "csrf_token"[0]; }
  }

  /** A token the client submitted is kept: the default is only for a request that brought none. */
  lemma {:induction false} SubmittedTokenKept(base: Layer, files: Files, params: seq<string>, s: Sources, j: nat)
    requires j < |s.form| && s.form[j].0 == "csrf_token"
    requires forall i :: j < i < |s.form| ==> s.form[i].0 != "csrf_token"
    ensures "csrf_token" in FlatDict(base, files, params, s)
            && FlatDict(base, files, params, s)["csrf_token"] == s.form[j].1
  {
    hide Written, MergeFiles, DynamicNames, FromRequest, BuiltIns, AuthEntries;
    var m := MergeFiles(base, files, DynamicNames(params, s.pathParams), []);
    var head, tail := AroundFormField(s, j);
    WrittenConcat(m, head + [s.form[j]], tail);
    WrittenConcat(m, head, [s.form[j]]);
    WrittenOne(Written(m, head), "csrf_token", s.form[j].1);
    WrittenElsewhere(Written(m, head + [s.form[j]]), tail, "csrf_token");
  }
}
