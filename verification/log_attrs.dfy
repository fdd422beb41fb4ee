/** Attribute trees and the flat key-value records that log handlers make of them. */
module LogAttrs {
  import opened Wrappers

  /** A resolved slog attribute. */
  datatype Attr =
    | Leaf(key: string, value: string)
    | Group(key: string, attrs: seq<Attr>)

  type Flat = map<string, string>

  function Qualify(group: string, key: string): string {
    if group == "" then key else group + "." + key
  }

  /** resolveAttr: write the leaves of one attribute under a group prefix. */
  function Flatten(m: Flat, group: string, a: Attr): Flat
    decreases a
  {
    match a
    case Leaf(key, value) => m[Qualify(group, key) := value]
    case Group(key, attrs) => FlattenAll(m, Qualify(group, key), attrs)
  }

  function FlattenAll(m: Flat, group: string, attrs: seq<Attr>): Flat
    decreases attrs
  {
    if attrs == [] then m else FlattenAll(Flatten(m, group, attrs[0]), group, attrs[1..])
  }

  lemma {:induction false} FlattenAppend(m: Flat, group: string, a: seq<Attr>, b: seq<Attr>)
    ensures FlattenAll(m, group, a + b) == FlattenAll(FlattenAll(m, group, a), group, b)
    decreases |a|
  {
    if a == [] {
      assert a + b == b;
    } else {
      assert (a + b)[1..] == a[1..] + b;
      FlattenAppend(Flatten(m, group, a[0]), group, a[1..], b);
    }
  }

  // ----- handlers and the ways to derive them -----

  /** What a handler has baked so far: qualified attributes, and the prefix for the coming ones. */
  datatype Handler = Handler(preAttrs: Flat, preGroup: string)

  datatype Op =
    | WithAttrs(attrs: seq<Attr>)
    | WithGroup(name: string)

  const Root := Handler(map[], "")

  function Derive(h: Handler, op: Op): Handler {
    match op
    case WithAttrs(attrs) => h.(preAttrs := FlattenAll(h.preAttrs, h.preGroup, attrs))
    case WithGroup(name) => h.(preGroup := Qualify(h.preGroup, name))
  }

  function DeriveAll(h: Handler, ops: seq<Op>): Handler
    decreases |ops|
  {
    if ops == [] then h else DeriveAll(Derive(h, ops[0]), ops[1..])
  }

  /** The attributes a handler records for a message with `attrs`. */
  function Recorded(h: Handler, attrs: seq<Attr>): Flat {
    FlattenAll(h.preAttrs, h.preGroup, attrs)
  }

  // ----- the reference: one pass over the whole attribute tree -----

  /** The tree a chain of derivations and a last message describe: a group holds all that follows it. */
  function Nest(ops: seq<Op>, attrs: seq<Attr>): seq<Attr> {
    if ops == [] then attrs
    else
      match ops[0]
      case WithAttrs(first) => first + Nest(ops[1..], attrs)
      case WithGroup(name) => [Group(name, Nest(ops[1..], attrs))]
  }

  type Path = seq<string>
  datatype Entry = Entry(path: Path, value: string)

  /** The leaves of a tree in order, each with the names on the way to it from the prefix p. */
  function Leaves(p: Path, attrs: seq<Attr>): seq<Entry>
    decreases attrs
  {
    if attrs == [] then [] else LeavesOf(p, attrs[0]) + Leaves(p, attrs[1..])
  }

  function LeavesOf(p: Path, a: Attr): seq<Entry>
    decreases a
  {
    match a
    case Leaf(key, value) => [Entry(p + [key], value)]
    case Group(key, attrs) => Leaves(p + [key], attrs)
  }

  /** The names of a path joined by dots, leading empty names left out. */
  function JoinPath(p: Path): string {
    if p == [] then "" else Qualify(JoinPath(p[..|p| - 1]), p[|p| - 1])
  }

  /** Write the entries in order, the last one for a key winning. */
  function Write(m: Flat, entries: seq<Entry>): Flat
    decreases |entries|
  {
    if entries == [] then m else Write(m[JoinPath(entries[0].path) := entries[0].value], entries[1..])
  }

  lemma {:induction false} WriteAppend(m: Flat, a: seq<Entry>, b: seq<Entry>)
    ensures Write(m, a + b) == Write(Write(m, a), b)
    decreases |a|
  {
    if a == [] {
      assert a + b == b;
    } else {
      assert (a + b)[1..] == a[1..] + b;
      WriteAppend(m[JoinPath(a[0].path) := a[0].value], a[1..], b);
    }
  }

  lemma JoinOne(p: Path, key: string)
    ensures JoinPath(p + [key]) == Qualify(JoinPath(p), key)
  {
    assert (p + [key])[..|p|] == p;
  }

  lemma {:induction false} FlattenWrites(m: Flat, p: Path, a: Attr)
    ensures Flatten(m, JoinPath(p), a) == Write(m, LeavesOf(p, a))
    decreases a
  {
    JoinOne(p, a.key);
    match a
    case Leaf(key, value) =>
      assert LeavesOf(p, a)[1..] == [];
    case Group(key, attrs) => FlattenAllWrites(m, p + [key], attrs);
  }

  lemma {:induction false} FlattenAllWrites(m: Flat, p: Path, attrs: seq<Attr>)
    ensures FlattenAll(m, JoinPath(p), attrs) == Write(m, Leaves(p, attrs))
    decreases attrs
  {
    if attrs == [] {
    } else {
      FlattenWrites(m, p, attrs[0]);
      FlattenAllWrites(Flatten(m, JoinPath(p), attrs[0]), p, attrs[1..]);
      WriteAppend(m, LeavesOf(p, attrs[0]), Leaves(p, attrs[1..]));
    }
  }

  lemma {:induction false} LeavesAppend(p: Path, a: seq<Attr>, b: seq<Attr>)
    ensures Leaves(p, a + b) == Leaves(p, a) + Leaves(p, b)
    decreases |a|
  {
    if a == [] {
      assert a + b == b;
    } else {
      assert (a + b)[1..] == a[1..] + b;
      LeavesAppend(p, a[1..], b);
    }
  }

  lemma LeavesGroup(p: Path, name: string, attrs: seq<Attr>)
    ensures Leaves(p, [Group(name, attrs)]) == Leaves(p + [name], attrs)
  {
    var one := [Group(name, attrs)];
    assert Leaves(p, one) == LeavesOf(p, one[0]) + Leaves(p, one[1..]);
    assert one[1..] == [];
  }

  lemma {:induction false} ChainWrites(h: Handler, p: Path, ops: seq<Op>, attrs: seq<Attr>)
    requires h.preGroup == JoinPath(p)
    ensures Recorded(DeriveAll(h, ops), attrs) == Write(h.preAttrs, Leaves(p, Nest(ops, attrs)))
    decreases |ops|
  {
    if ops == [] {
      FlattenAllWrites(h.preAttrs, p, attrs);
    } else {
      match ops[0]
      case WithAttrs(first) =>
        ChainWrites(Derive(h, ops[0]), p, ops[1..], attrs);
        FlattenAllWrites(h.preAttrs, p, first);
        LeavesAppend(p, first, Nest(ops[1..], attrs));
        WriteAppend(h.preAttrs, Leaves(p, first), Leaves(p, Nest(ops[1..], attrs)));
      case WithGroup(name) =>
        JoinOne(p, name);
        ChainWrites(Derive(h, ops[0]), p + [name], ops[1..], attrs);
        LeavesGroup(p, name, Nest(ops[1..], attrs));
    }
  }

  /** However a handler came to be, it records the one-pass, last-write-wins flattening of the whole tree. */
  lemma ChainIndependent(ops: seq<Op>, attrs: seq<Attr>)
    ensures Recorded(DeriveAll(Root, ops), attrs) == Write(map[], Leaves([], Nest(ops, attrs)))
  {
    ChainWrites(Root, [], ops, attrs);
  }

  lemma {:induction false} NestAppend(a: seq<Op>, b: seq<Op>, attrs: seq<Attr>)
    ensures Nest(a + b, attrs) == Nest(a, Nest(b, attrs))
  {
    if a == [] {
      assert a + b == b;
    } else {
      assert (a + b)[1..] == a[1..] + b;
      NestAppend(a[1..], b, attrs);
    }
  }

  /** WithGroup(g), anywhere in a chain, is as good as wrapping every later attribute in a group g. */
  lemma GroupWraps(before: seq<Op>, name: string, after: seq<Op>, attrs: seq<Attr>)
    ensures Recorded(DeriveAll(Root, before + ([WithGroup(name)] + after)), attrs)
         == Recorded(DeriveAll(Root, before), [Group(name, Nest(after, attrs))])
  {
    ChainIndependent(before + ([WithGroup(name)] + after), attrs);
    ChainIndependent(before, [Group(name, Nest(after, attrs))]);
    NestAppend(before, [WithGroup(name)] + after, attrs);
    assert ([WithGroup(name)] + after)[1..] == after;
  }

  // ----- keys stand for paths -----

  predicate Plain(name: string) {
    name != "" && '.' !in name
  }

  ghost predicate PlainPath(p: Path) {
    p != [] && forall i :: 0 <= i < |p| ==> Plain(p[i])
  }

  /** Where the last name of a dotted key starts. */
  function LastName(key: string): nat {
    if key == "" || key[|key| - 1] == '.' then |key| else LastName(key[..|key| - 1])
  }

  lemma {:induction false} LastNameIs(head: string, name: string)
    requires '.' !in name && (head == "" || head[|head| - 1] == '.')
    ensures LastName(head + name) == |head|
    decreases |name|
  {
    var key := head + name;
    if name == "" {
      assert key == head;
    } else {
      assert key[|key| - 1] == name[|name| - 1] && name[|name| - 1] in name;
      assert key[..|key| - 1] == head + name[..|name| - 1];
      LastNameIs(head, name[..|name| - 1]);
    }
  }

  lemma {:induction false} JoinNonEmpty(p: Path)
    requires PlainPath(p)
    ensures JoinPath(p) != ""
  {
  }

  lemma SplitSame(head: string, name: string, head': string, name': string)
    requires head + name == head' + name' && |head| == |head'|
    ensures head == head' && name == name'
  {
    assert head == (head + name)[..|head|] && head' == (head' + name')[..|head'|];
    assert name == (head + name)[|head|..] && name' == (head' + name')[|head'|..];
  }

  function Dotted(p: Path): string {
    if p == [] then "" else JoinPath(p) + "."
  }

  /** Plain names give different keys to different paths. */
  lemma {:induction false} JoinInjective(p: Path, q: Path)
    requires PlainPath(p) && PlainPath(q) && JoinPath(p) == JoinPath(q)
    ensures p == q
    decreases |p|
  {
    var p', q' := p[..|p| - 1], q[..|q| - 1];
    var a, b := p[|p| - 1], q[|q| - 1];
    JoinSplit(p);
    JoinSplit(q);
    LastNameIs(Dotted(p'), a);
    LastNameIs(Dotted(q'), b);
    SplitSame(Dotted(p'), a, Dotted(q'), b);
    if p' == [] || q' == [] {
      assert p' == [] && q' == [];
    } else {
      SplitSame(JoinPath(p'), ".", JoinPath(q'), ".");
      JoinInjective(p', q');
    }
    assert p == p' + [a] && q == q' + [b];
  }

  lemma JoinSplit(p: Path)
    requires PlainPath(p)
    ensures var p' := p[..|p| - 1];
      && (p' != [] ==> PlainPath(p'))
      && JoinPath(p) == Dotted(p') + p[|p| - 1]
  {
    var p' := p[..|p| - 1];
    if p' == [] {
      assert JoinPath(p) == "" + p[0];
    } else {
      JoinNonEmpty(p');
    }
  }

  /** The last value written at a path. */
  function LastAt(entries: seq<Entry>, p: Path, before: Option<string>): Option<string>
    decreases |entries|
  {
    if entries == [] then before
    else LastAt(entries[1..], p, if entries[0].path == p then Some(entries[0].value) else before)
  }

  function Lookup(m: Flat, key: string): Option<string> {
    if key in m then Some(m[key]) else None
  }

  ghost predicate PlainEntries(entries: seq<Entry>) {
    forall i :: 0 <= i < |entries| ==> PlainPath(entries[i].path)
  }

  lemma {:induction false} WriteAt(m: Flat, entries: seq<Entry>, p: Path)
    requires PlainEntries(entries) && PlainPath(p)
    ensures Lookup(Write(m, entries), JoinPath(p)) == LastAt(entries, p, Lookup(m, JoinPath(p)))
    decreases |entries|
  {
    if entries == [] {
    } else {
      var e := entries[0];
      assert PlainPath(e.path);
      if JoinPath(e.path) == JoinPath(p) {
        JoinInjective(e.path, p);
      }
      forall i | 0 <= i < |entries[1..]| ensures PlainPath(entries[1..][i].path) {
        assert PlainPath(entries[i + 1].path);
      }
      WriteAt(m[JoinPath(e.path) := e.value], entries[1..], p);
    }
  }

  /** The key is that of some entry's path. */
  ghost predicate HasPath(entries: seq<Entry>, key: string) {
    exists i :: 0 <= i < |entries| && key == JoinPath(entries[i].path)
  }

  /** Writing adds the keys of the entries' paths, all of them and no others. */
  lemma {:induction false} WriteKeys(m: Flat, entries: seq<Entry>, key: string)
    ensures key in Write(m, entries) <==> key in m || HasPath(entries, key)
    decreases |entries|
  {
    if entries == [] {
    } else {
      WriteKeys(m[JoinPath(entries[0].path) := entries[0].value], entries[1..], key);
      if HasPath(entries[1..], key) {
        var i :| 0 <= i < |entries[1..]| && key == JoinPath(entries[1..][i].path);
        assert key == JoinPath(entries[i + 1].path);
      }
      if HasPath(entries, key) && key != JoinPath(entries[0].path) {
        var i :| 0 <= i < |entries| && key == JoinPath(entries[i].path);
        assert key == JoinPath(entries[1..][i - 1].path);
      }
    }
  }

  /** The keys of a record are those of the paths in the tree.  With plain names it holds, under each path's
      own key, the last value the tree has there. */
  lemma PathsKeepApart(ops: seq<Op>, attrs: seq<Attr>)
    ensures var record, leaves := Recorded(DeriveAll(Root, ops), attrs), Leaves([], Nest(ops, attrs));
      && (forall key :: key in record <==> HasPath(leaves, key))
      && (PlainEntries(leaves) ==>
            forall p :: PlainPath(p) ==> Lookup(record, JoinPath(p)) == LastAt(leaves, p, None))
  {
    var leaves := Leaves([], Nest(ops, attrs));
    ChainIndependent(ops, attrs);
    forall key ensures key in Write(map[], leaves) <==> HasPath(leaves, key) {
      WriteKeys(map[], leaves, key);
    }
    if PlainEntries(leaves) {
      forall p | PlainPath(p) ensures Lookup(Write(map[], leaves), JoinPath(p)) == LastAt(leaves, p, None) {
        WriteAt(map[], leaves, p);
      }
    }
  }
}
