/**
Merging a secrets file into a config: the clash check and the deep merge.
*/
module ConfigMerge {
  import opened Bytes

  /** A TOML value: arrays and scalars are leaves here, tables are trees. */
  datatype Value = Leaf(text: string) | Table(entries: map<string, Value>)

  type Path = seq<string>

  const EMPTY := Table(map[])

  /** What stands at `p`. */
  function Lookup(v: Value, p: Path): Option<Value> {
    if p == [] then Some(v)
    else if v.Table? && p[0] in v.entries then Lookup(v.entries[p[0]], p[1..])
    else None
  }

  ghost predicate LeafAt(v: Value, p: Path) { Lookup(v, p).Some? && Lookup(v, p).value.Leaf? }

  ghost predicate TableAt(v: Value, p: Path) { Lookup(v, p).Some? && Lookup(v, p).value.Table? }

  // ---- clashes ----

  /** The paths reported: descend while both sides are tables, report the first key where they are not. */
  predicate Clash(b: Value, s: Value, p: Path)
    decreases |p|
  {
    p != [] && b.Table? && s.Table? && p[0] in b.entries && p[0] in s.entries
    && if b.entries[p[0]].Table? && s.entries[p[0]].Table? then Clash(b.entries[p[0]], s.entries[p[0]], p[1..])
       else |p| == 1
  }

  /** A clash is a path that is a value in one tree and present in the other. */
  lemma {:induction false} ClashMeaning(b: Value, s: Value, p: Path)
    requires b.Table? && s.Table?
    ensures Clash(b, s, p) <==>
            Lookup(b, p).Some? && Lookup(s, p).Some? && (LeafAt(b, p) || LeafAt(s, p))
    decreases |p|
  {
    if p != [] && p[0] in b.entries && p[0] in s.entries {
      if b.entries[p[0]].Table? && s.entries[p[0]].Table? {
        ClashMeaning(b.entries[p[0]], s.entries[p[0]], p[1..]);
      } else {
        assert p[1..] == [] <==> |p| == 1;
        assert Lookup(b, p) == Lookup(b.entries[p[0]], p[1..]) && Lookup(s, p) == Lookup(s.entries[p[0]], p[1..]);
      }
    }
  }

  /** The key under `prefix`, dotted. */
  function Dot(prefix: string, k: string): string {
    if prefix == "" then k else prefix + "." + k
  }

  function Dotted(prefix: string, p: Path): string
    decreases |p|
  {
    if p == [] then prefix else Dotted(Dot(prefix, p[0]), p[1..])
  }

  /** Keys with dots between them. */
  function WithDots(p: Path): string
    requires p != []
  {
    if |p| == 1 then p[0] else p[0] + "." + WithDots(p[1..])
  }

  /** A path is named by its keys with dots between them; empty keys at its very beginning leave no trace. */
  lemma {:induction false} DottedExactly(prefix: string, p: Path)
    requires p != []
    ensures prefix != "" ==> Dotted(prefix, p) == prefix + "." + WithDots(p)
    ensures p[0] != "" ==> Dotted("", p) == WithDots(p)
    ensures p[0] == "" ==> Dotted("", p) == Dotted("", p[1..])
    decreases |p|
  {
    if |p| > 1 {
      if prefix != "" {
        DottedExactly(Dot(prefix, p[0]), p[1..]);
        assert prefix + "." + p[0] + "." + WithDots(p[1..]) == prefix + "." + (p[0] + "." + WithDots(p[1..]));
      }
      if p[0] != "" {
        DottedExactly(p[0], p[1..]);
      }
    } else {
      assert p[1..] == [];
    }
  }

  /** `text` names a clash below `prefix`, at a key in `ks`. */
  ghost predicate Named(b: Value, s: Value, prefix: string, ks: set<string>, text: string) {
    exists p :: Clash(b, s, p) && p[0] in ks && Dotted(prefix, p) == text
  }

  method FindKeyClashes(base: Value, secrets: Value, prefix: string, out0: seq<string>) returns (out: seq<string>)
    ensures out0 <= out
    ensures forall text :: text in out <==>
              text in out0 || (secrets.Table? && Named(base, secrets, prefix, secrets.entries.Keys, text))
    decreases secrets
  {
    out := out0;
    if !(base.Table? && secrets.Table?) {
      return;
    }
    var done: set<string> := {};
    var left := secrets.entries.Keys;
    while left != {}
      invariant out0 <= out
      invariant left !! done && left + done == secrets.entries.Keys
      invariant forall text :: text in out <==> text in out0 || Named(base, secrets, prefix, done, text)
      decreases left
    {
      var k :| k in left;
      ghost var before := out;
      if k in base.entries {
        var bv, sv := base.entries[k], secrets.entries[k];
        var path := Dot(prefix, k);
        if bv.Table? && sv.Table? {
          out := FindKeyClashes(bv, sv, path, out);
        } else {
          out := out + [path];
        }
        forall text ensures text in out <==> text in before || Named(base, secrets, prefix, {k}, text) {
          NamedBelow(base, secrets, prefix, k, text);
        }
      } else {
        forall text ensures !Named(base, secrets, prefix, {k}, text) {
        }
      }
      forall text ensures Named(base, secrets, prefix, done + {k}, text) <==>
          Named(base, secrets, prefix, done, text) || Named(base, secrets, prefix, {k}, text)
      {
        NamedUnion(base, secrets, prefix, done, {k}, text);
      }
      done := done + {k};
      left := left - {k};
    }
    assert done == secrets.entries.Keys;
  }

  lemma {:induction false} NamedUnion(b: Value, s: Value, prefix: string, x: set<string>, y: set<string>, text: string)
    ensures Named(b, s, prefix, x + y, text) <==> Named(b, s, prefix, x, text) || Named(b, s, prefix, y, text)
  {
    hide Clash, Dotted;
    if p :| Clash(b, s, p) && p != [] && p[0] in x && Dotted(prefix, p) == text {
      assert p[0] in x + y;
    }
    if p :| Clash(b, s, p) && p != [] && p[0] in y && Dotted(prefix, p) == text {
      assert p[0] in x + y;
    }
  }

  lemma {:induction false} NamedBelow(b: Value, s: Value, prefix: string, k: string, text: string)
    requires b.Table? && s.Table? && k in b.entries && k in s.entries
    ensures var bv, sv := b.entries[k], s.entries[k];
            Named(b, s, prefix, {k}, text) <==>
            if bv.Table? && sv.Table? then Named(bv, sv, Dot(prefix, k), sv.entries.Keys, text)
            else text == Dot(prefix, k)
  {
    var bv, sv := b.entries[k], s.entries[k];
    if Named(b, s, prefix, {k}, text) {
      var p :| Clash(b, s, p) && p[0] in {k} && Dotted(prefix, p) == text;
      if bv.Table? && sv.Table? {
        assert Clash(bv, sv, p[1..]) && Dotted(Dot(prefix, k), p[1..]) == text;
      } else {
        assert p[1..] == [];
      }
    }
    if bv.Table? && sv.Table? {
      if q :| Clash(bv, sv, q) && q[0] in sv.entries.Keys && Dotted(Dot(prefix, k), q) == text {
        var p := [k] + q;
        assert p[1..] == q;
        assert Clash(b, s, p) && Dotted(prefix, p) == text;
      }
    } else {
      var p := [k];
      assert p[1..] == [];
      assert Clash(b, s, p) && Dotted(prefix, p) == Dot(prefix, k);
    }
  }

  ghost predicate Compatible(b: Value, s: Value) { forall p :: !Clash(b, s, p) }

  /** The clash list is empty exactly when no path is a value in one tree and present in the other. */
  method CheckClashes(base: Value, secrets: Value) returns (ok: bool)
    requires base.Table? && secrets.Table?
    ensures ok <==> forall p :: !(Lookup(base, p).Some? && Lookup(secrets, p).Some?
                                  && (LeafAt(base, p) || LeafAt(secrets, p)))
    ensures ok <==> Compatible(base, secrets)
  {
    hide Clash, Lookup, Dotted;
    var out := FindKeyClashes(base, secrets, "", []);
    ok := out == [];
    EmptyListMeansCompatible(base, secrets, out);
    forall p ensures Clash(base, secrets, p) <==>
        Lookup(base, p).Some? && Lookup(secrets, p).Some? && (LeafAt(base, p) || LeafAt(secrets, p))
    {
      ClashMeaning(base, secrets, p);
    }
  }

  lemma {:induction false} EmptyListMeansCompatible(base: Value, secrets: Value, out: seq<string>)
    requires base.Table? && secrets.Table?
    requires forall text :: text in out <==> Named(base, secrets, "", secrets.entries.Keys, text)
    ensures out == [] <==> Compatible(base, secrets)
  {
    if out != [] {
      assert out[0] in out;
    }
    if p :| Clash(base, secrets, p) {
      assert Named(base, secrets, "", secrets.entries.Keys, Dotted("", p));
    }
  }

  // ---- the merge ----

  function Merge(d: Value, s: Value): Value
    decreases s
  {
    if d.Table? && s.Table? then
      Table(map k | k in d.entries.Keys + s.entries.Keys ::
              if k !in s.entries then d.entries[k]
              else Merge(if k in d.entries then d.entries[k] else EMPTY, s.entries[k]))
    else s
  }

  method MergeToml(dst: Value, src: Value) returns (r: Value)
    ensures r == Merge(dst, src)
    decreases src
  {
    if !(dst.Table? && src.Table?) {
      return src;
    }
    var d := dst.entries;
    var left := src.entries.Keys;
    while left != {}
      invariant left <= src.entries.Keys
      invariant d.Keys == dst.entries.Keys + (src.entries.Keys - left)
      invariant forall k :: k in d ==>
                  d[k] == if k in src.entries.Keys - left
                          then Merge(if k in dst.entries then dst.entries[k] else EMPTY, src.entries[k])
                          else dst.entries[k]
      decreases left
    {
      var k :| k in left;
      var entry := if k in d then d[k] else EMPTY;
      var merged := MergeToml(entry, src.entries[k]);
      d := d[k := merged];
      left := left - {k};
    }
    r := Table(d);
    assert d == Merge(dst, src).entries;
  }

  /** Merging into nothing copies. */
  lemma {:induction false} MergeIntoEmpty(s: Value)
    ensures Merge(EMPTY, s) == s
    decreases s
  {
    if s.Table? {
      forall k | k in s.entries ensures Merge(EMPTY, s.entries[k]) == s.entries[k] {
        MergeIntoEmpty(s.entries[k]);
      }
      assert Merge(EMPTY, s).entries == s.entries;
    }
  }

  lemma {:induction false} CompatibleBelow(a: Value, b: Value, k: string)
    requires a.Table? && b.Table? && Compatible(a, b) && k in a.entries && k in b.entries
    ensures a.entries[k].Table? && b.entries[k].Table? && Compatible(a.entries[k], b.entries[k])
  {
    assert !Clash(a, b, [k]);
    assert [k][1..] == [];
    forall p ensures !Clash(a.entries[k], b.entries[k], p) {
      var q := [k] + p;
      assert q[1..] == p;
      assert !Clash(a, b, q);
    }
  }

  /** What stands at one key of the merge of two compatible trees. */
  lemma {:induction false} MergeAtKey(a: Value, b: Value, k: string)
    requires a.Table? && b.Table?
    ensures var m := Merge(a, b);
            && m.Table? && (k in m.entries <==> k in a.entries || k in b.entries)
            && (k in m.entries ==>
                  m.entries[k] == if k !in b.entries then a.entries[k]
                                  else if k !in a.entries then b.entries[k]
                                  else Merge(a.entries[k], b.entries[k]))
  {
    if k in b.entries {
      MergeIntoEmpty(b.entries[k]);
    }
  }

  /**
  After an empty clash list the merge holds every value of both trees, no other
  value, and has overwritten none; likewise for tables.
  */
  lemma {:induction false} MergeKeepsBoth(a: Value, b: Value, p: Path)
    requires a.Table? && b.Table? && Compatible(a, b)
    ensures var m := Merge(a, b);
            && (LeafAt(a, p) ==> Lookup(m, p) == Lookup(a, p))
            && (LeafAt(b, p) ==> Lookup(m, p) == Lookup(b, p))
            && (LeafAt(m, p) <==> LeafAt(a, p) || LeafAt(b, p))
            && (TableAt(m, p) <==> TableAt(a, p) || TableAt(b, p))
    decreases |p|
  {
    hide Merge, Clash, Compatible;
    if p == [] {
      MergeAtKey(a, b, "");
    } else {
      var k := p[0];
      MergeAtKey(a, b, k);
      if k in a.entries && k in b.entries {
        CompatibleBelow(a, b, k);
        MergeKeepsBoth(a.entries[k], b.entries[k], p[1..]);
      }
    }
  }

  /** And the order of the two files does not matter. */
  lemma {:induction false} MergeCommutes(a: Value, b: Value)
    requires a.Table? && b.Table? && Compatible(a, b)
    ensures Merge(a, b) == Merge(b, a)
    decreases a
  {
    hide Merge, Clash, Compatible;
    MergeAtKey(a, b, "");
    MergeAtKey(b, a, "");
    var m, n := Merge(a, b), Merge(b, a);
    forall k ensures (k in m.entries <==> k in n.entries) && (k in m.entries ==> m.entries[k] == n.entries[k]) {
      MergeAtKey(a, b, k);
      MergeAtKey(b, a, k);
      if k in a.entries && k in b.entries {
        CompatibleBelow(a, b, k);
        MergeCommutes(a.entries[k], b.entries[k]);
      }
    }
    assert m.entries == n.entries;
  }

  /** Without the check the merge lets the second file win, value for value. */
  lemma {:induction false} SecondWins(a: Value, b: Value, p: Path)
    requires LeafAt(b, p)
    ensures Lookup(Merge(a, b), p) == Lookup(b, p)
    decreases |p|
  {
    hide Merge;
    if p != [] && a.Table? {
      var k := p[0];
      MergeAtKey(a, b, k);
      if k in a.entries {
        SecondWins(a.entries[k], b.entries[k], p[1..]);
      }
    } else {
      MergeNotTables(a, b);
    }
  }

  lemma {:induction false} MergeNotTables(a: Value, b: Value)
    requires !(a.Table? && b.Table?)
    ensures Merge(a, b) == b
  {
  }
}
