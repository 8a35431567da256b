/** Checking raw torrent metadata (services/app/adapters/torrent_probe.py): file name
    components, the explicit-stack walk of a v2 file tree (BEP 52) and the agreement
    of a hybrid torrent's two layouts. */
module TorrentProbe {
  import opened Outcomes

  const MAX_FILES := 10000

  // ---------------------------------------------------------------- components

  function Utf8Length(ch: char): nat {
    if ch as int < 0x80 then 1 else if ch as int < 0x800 then 2 else if ch as int < 0x10000 then 3 else 4
  }

  function Utf8Size(text: string): nat {
    if text == [] then 0 else Utf8Length(text[0]) + Utf8Size(text[1..])
  }

  predicate IsControl(ch: char) {
    ch as int < 32 || ch as int == 127
  }

  predicate Component(text: string) {
    && text != [] && text != "." && text != ".."
    && (forall i :: 0 <= i < |text| ==> text[i] != '/' && text[i] != '\\' && text[i] != ':' && !IsControl(text[i]))
    && Utf8Size(text) <= 255
  }

  predicate Components(parts: seq<string>) {
    forall i :: 0 <= i < |parts| ==> Component(parts[i])
  }

  /** "/".join(parts) */
  function Join(parts: seq<string>): string
    decreases |parts|, 1
  {
    if parts == [] then [] else parts[0] + Tail(parts)
  }

  function Tail(parts: seq<string>): string
    requires parts != []
    decreases |parts|, 0
  {
    if |parts| == 1 then [] else "/" + Join(parts[1..])
  }

  lemma PrefixUpToSlash(a: string, b: string, x: string, y: string)
    requires forall i :: 0 <= i < |a| ==> a[i] != '/'
    requires forall i :: 0 <= i < |b| ==> b[i] != '/'
    requires a + x == b + y
    requires (x == [] || x[0] == '/') && (y == [] || y[0] == '/')
    ensures a == b && x == y
  {
    var s := a + x;
    assert x != [] ==> s[|a|] == '/';
    assert y != [] ==> s[|b|] == '/';
    assert forall i :: 0 <= i < |a| ==> s[i] == a[i];
    assert forall i :: 0 <= i < |b| ==> s[i] == b[i];
    assert a == (a + x)[..|a|] && x == (a + x)[|a|..];
    assert b == (b + y)[..|b|] && y == (b + y)[|b|..];
  }

  lemma JoinParts(parts: seq<string>)
    requires Components(parts) && parts != []
    ensures Component(parts[0]) && Components(parts[1..])
    ensures Join(parts) == parts[0] + Tail(parts) && Join(parts) != []
    ensures |parts| > 1 ==> Tail(parts)[1..] == Join(parts[1..])
    ensures parts == [parts[0]] + parts[1..]
  {
    forall i | 0 <= i < |parts| - 1 ensures Component(parts[1..][i]) {
      assert parts[1..][i] == parts[i + 1];
    }
  }

  lemma SameHead(a: seq<string>, b: seq<string>)
    requires Components(a) && Components(b) && a != [] && b != [] && Join(a) == Join(b)
    ensures a[0] == b[0] && Tail(a) == Tail(b) && (|a| > 1 <==> |b| > 1)
  {
    JoinParts(a);
    JoinParts(b);
    PrefixUpToSlash(a[0], b[0], Tail(a), Tail(b));
  }

  /** Joined paths of accepted components are equal only for equal components. */
  lemma {:induction false} JoinIsInjective(a: seq<string>, b: seq<string>)
    requires Components(a) && Components(b) && Join(a) == Join(b)
    ensures a == b
    decreases |a|
  {
    if a == [] || b == [] {
      if a != [] {
        JoinParts(a);
      } else if b != [] {
        JoinParts(b);
      }
    } else {
      SameHead(a, b);
      JoinParts(a);
      JoinParts(b);
      if |a| > 1 {
        JoinIsInjective(a[1..], b[1..]);
      } else {
        assert a[1..] == b[1..];
      }
    }
  }

  // ---------------------------------------------------------------- decoded metadata

  /** A dictionary key: its bytes and, when they are UTF-8, its text. */
  datatype Key = Key(raw: string, text: Option<string>)

  /** Decoded bencoding; lists are not looked into here. */
  datatype Value = Bytes(raw: string) | Number(n: int) | List | Dict(entries: seq<(Key, Value)>)

  function Lookup(entries: seq<(Key, Value)>, name: string): Option<Value> {
    if entries == [] then None else if entries[0].0.raw == name then Some(entries[0].1) else Lookup(entries[1..], name)
  }

  /** What one file of the metadata amounts to, duplicates aside. */
  datatype Entry = Rejected | Padding | File(parts: seq<string>, path: string, size: nat)

  /** A file's path is its accepted components, joined. */
  predicate Proper(e: Entry) {
    e.File? ==> Components(e.parts) && e.path == Join(e.parts)
  }

  ghost predicate AllProper(all: multiset<Entry>) {
    forall e :: e in all ==> Proper(e)
  }

  function Checked(parts: seq<string>, details: Value): (e: Entry)
    ensures Proper(e)
  {
    if !details.Dict? then Rejected
    else
      var flags := if Lookup(details.entries, "attr").Some? then Lookup(details.entries, "attr").value else Bytes("");
      if !flags.Bytes? || 'l' in flags.raw || Lookup(details.entries, "symlink path").Some? then Rejected
      else if !Components(parts) || |Join(parts)| > 2048 then Rejected
      else if 'p' in flags.raw then Padding
      else
        match Lookup(details.entries, "length")
        case Some(Number(n)) => if n < 0 then Rejected else File(parts, Join(parts), n)
        case _ => Rejected
  }

  ghost predicate Holds(layout: map<string, nat>, e: Entry) {
    e.File? ==> e.path in layout && layout[e.path] == e.size
  }

  ghost predicate Provides(all: multiset<Entry>, path: string) {
    exists e :: e in all && e.File? && e.path == path
  }

  /** The layout that a collection of entries describes: none is rejected, and the
      files that are not padding have different paths. */
  ghost predicate Describes(all: multiset<Entry>, layout: map<string, nat>) {
    && Rejected !in all
    && (forall e :: e in all ==> Holds(layout, e) && (e.File? ==> all[e] == 1))
    && (forall e, f :: e in all && f in all && e.File? && f.File? && e.path == f.path ==> e == f)
    && (forall path :: path in layout ==> Provides(all, path))
  }

  ghost predicate Describable(all: multiset<Entry>) {
    exists layout :: Describes(all, layout)
  }

  /** A part that describes nothing spoils the whole. */
  lemma PartOfDescribable(part: multiset<Entry>, all: multiset<Entry>)
    requires part <= all
    ensures Describable(all) ==> Describable(part)
  {
    if Describable(all) {
      var layout :| Describes(all, layout);
      var kept := map path | path in layout && Provides(part, path) :: layout[path];
      forall e | e in part ensures Holds(kept, e) && (e.File? ==> part[e] == 1) {
        assert e in all && part[e] <= all[e];
        if e.File? {
          assert Provides(part, e.path);
        }
      }
      assert Describes(part, kept);
    }
  }

  lemma AddPadding(all: multiset<Entry>, layout: map<string, nat>)
    requires Describes(all, layout)
    ensures Describes(all + multiset{Padding}, layout)
  {
    var more := all + multiset{Padding};
    assert forall e :: e in more <==> e in all || e == Padding;
    assert forall e :: e != Padding ==> more[e] == all[e];
    forall path | path in layout ensures Provides(more, path) {
      assert Provides(all, path);
    }
  }

  lemma AddFile(all: multiset<Entry>, layout: map<string, nat>, f: Entry)
    requires Describes(all, layout) && f.File? && f.path !in layout
    ensures Describes(all + multiset{f}, layout[f.path := f.size])
  {
    var more := all + multiset{f};
    var longer := layout[f.path := f.size];
    assert forall e :: e in more <==> e in all || e == f;
    assert Holds(layout, f) ==> f !in all;
    assert f !in all;
    forall e | e in all ensures Holds(longer, e) && e != f && more[e] == all[e] {
      assert Holds(layout, e);
    }
    forall path | path in longer ensures Provides(more, path) {
      assert path in layout ==> Provides(all, path);
      assert f in more;
    }
  }

  lemma AddSpoils(all: multiset<Entry>, layout: map<string, nat>, f: Entry)
    requires Describes(all, layout)
    requires f.Rejected? || (f.File? && f.path in layout)
    ensures !Describable(all + multiset{f})
  {
    var more := all + multiset{f};
    assert f in more;
    if f.File? {
      assert Provides(all, f.path);
      var e :| e in all && e.File? && e.path == f.path;
      assert e in more && (e == f ==> more[f] >= 2);
    }
  }

  // ---------------------------------------------------------------- the tree

  /** The plain recursive reading of a file tree below `prefix`. */
  function Flatten(node: Value, prefix: seq<string>): (all: multiset<Entry>)
    ensures AllProper(all)
    decreases node, 2
  {
    if !node.Dict? then multiset{Rejected} else FlattenEntries(node, node.entries, prefix)
  }

  function FlattenEntries(node: Value, entries: seq<(Key, Value)>, prefix: seq<string>): (all: multiset<Entry>)
    requires node.Dict? && forall e :: e in entries ==> e.1 < node
    ensures AllProper(all)
    decreases node, 1, |entries|
  {
    if entries == [] then multiset{}
    else FlattenEntry(node, entries[0], prefix) + FlattenEntries(node, entries[1..], prefix)
  }

  /** The empty name marks a file and must stand alone in its dictionary. */
  function FlattenEntry(node: Value, entry: (Key, Value), prefix: seq<string>): (all: multiset<Entry>)
    requires node.Dict? && entry.1 < node
    ensures AllProper(all)
    decreases node, 0
  {
    if entry.0.raw == "" then
      if |node.entries| != 1 then multiset{Rejected} else multiset{Checked(prefix, entry.1)}
    else if entry.0.text.None? || !Component(entry.0.text.value) then multiset{Rejected}
    else Flatten(entry.1, prefix + [entry.0.text.value])
  }

  function Size(node: Value): nat
    decreases node, 1, 0
  {
    if node.Dict? then 1 + EntriesSize(node, node.entries) else 1
  }

  function EntriesSize(node: Value, entries: seq<(Key, Value)>): nat
    requires node.Dict? && forall e :: e in entries ==> e.1 < node
    decreases node, 0, |entries|
  {
    if entries == [] then 0 else Size(entries[0].1) + EntriesSize(node, entries[1..])
  }

  function StackSize(stack: seq<(Value, seq<string>)>): nat {
    if stack == [] then 0 else StackSize(stack[..|stack| - 1]) + Size(stack[|stack| - 1].0)
  }

  function FlattenStack(stack: seq<(Value, seq<string>)>): multiset<Entry> {
    if stack == [] then multiset{}
    else FlattenStack(stack[..|stack| - 1]) + Flatten(stack[|stack| - 1].0, stack[|stack| - 1].1)
  }

  lemma Push(stack: seq<(Value, seq<string>)>, item: (Value, seq<string>))
    ensures StackSize(stack + [item]) == StackSize(stack) + Size(item.0)
    ensures FlattenStack(stack + [item]) == FlattenStack(stack) + Flatten(item.0, item.1)
  {
    assert (stack + [item])[..|stack|] == stack;
  }

  /** One file against the layout so far. */
  method Add(layout: map<string, nat>, parts: seq<string>, details: Value, ghost seen: multiset<Entry>)
    returns (next: Option<map<string, nat>>)
    requires Describes(seen, layout)
    ensures next.Some? ==> Describes(seen + multiset{Checked(parts, details)}, next.value)
    ensures next.None? ==> !Describable(seen + multiset{Checked(parts, details)})
  {
    var entry := Checked(parts, details);
    match entry
    case Rejected =>
      AddSpoils(seen, layout, entry);
      next := None;
    case Padding =>
      AddPadding(seen, layout);
      next := Some(layout);
    case File(_, path, size) =>
      if path in layout {
        AddSpoils(seen, layout, entry);
        next := None;
      } else {
        AddFile(seen, layout, entry);
        next := Some(layout[path := size]);
      }
  }

  lemma NextEntry(node: Value, k: nat, prefix: seq<string>)
    requires node.Dict? && k < |node.entries|
    requires forall e :: e in node.entries ==> e.1 < node
    ensures FlattenEntries(node, node.entries[k..], prefix)
         == FlattenEntry(node, node.entries[k], prefix) + FlattenEntries(node, node.entries[k + 1..], prefix)
    ensures EntriesSize(node, node.entries[k..]) == Size(node.entries[k].1) + EntriesSize(node, node.entries[k + 1..])
  {
    assert node.entries[k..][1..] == node.entries[k + 1..];
  }

  lemma Regroup(a: multiset<Entry>, b: multiset<Entry>, c: multiset<Entry>, d: multiset<Entry>)
    ensures a + b + (c + d) == (a + c) + b + d == a + (b + c) + d
    ensures a + c <= a + b + (c + d)
    ensures Rejected in c ==> Rejected in a + b + (c + d)
  {
  }

  /** One dictionary of the tree: its files are added and its subtrees pushed. */
  method VisitNode(node: Value, prefix: seq<string>, layout: map<string, nat>, stack: seq<(Value, seq<string>)>,
      ghost seen: multiset<Entry>)
    returns (ok: bool, layout': map<string, nat>, stack': seq<(Value, seq<string>)>, ghost seen': multiset<Entry>)
    requires Describes(seen, layout)
    ensures ok ==>
              && Describes(seen', layout')
              && seen' + FlattenStack(stack') == seen + FlattenStack(stack) + Flatten(node, prefix)
    ensures ok ==> StackSize(stack') < StackSize(stack) + Size(node)
    ensures !ok ==> !Describable(seen + FlattenStack(stack) + Flatten(node, prefix))
  {
    ok, layout', stack', seen' := true, layout, stack, seen;
    ghost var all := seen + FlattenStack(stack) + Flatten(node, prefix);
    if !node.Dict? {
      ok := false;
      return;
    }
    assert forall e :: e in node.entries ==> e.1 < node;
    for k := 0 to |node.entries|
      invariant Describes(seen', layout')
      invariant seen' + FlattenStack(stack') + FlattenEntries(node, node.entries[k..], prefix) == all
      invariant StackSize(stack') + EntriesSize(node, node.entries[k..])
             <= StackSize(stack) + EntriesSize(node, node.entries)
    {
      NextEntry(node, k, prefix);
      Regroup(seen', FlattenStack(stack'), FlattenEntry(node, node.entries[k], prefix),
              FlattenEntries(node, node.entries[k + 1..], prefix));
      var (key, child) := node.entries[k];
      assert node.entries[k] == (key, child);
      if key.raw == "" {
        if |node.entries| != 1 {
          ok := false;
          return;
        }
        var next := Add(layout', prefix, child, seen');
        if next.None? {
          PartOfDescribable(seen' + multiset{Checked(prefix, child)}, all);
          ok := false;
          return;
        }
        layout', seen' := next.value, seen' + multiset{Checked(prefix, child)};
      } else if key.text.None? || !Component(key.text.value) {
        ok := false;
        return;
      } else {
        Push(stack', (child, prefix + [key.text.value]));
        stack' := stack' + [(child, prefix + [key.text.value])];
      }
    }
    assert node.entries[|node.entries|..] == [];
  }

  /** Popping the stack until it is empty, given all it stands for. */
  method Walk(start: seq<(Value, seq<string>)>, ghost all: multiset<Entry>) returns (r: Option<map<string, nat>>)
    requires FlattenStack(start) == all
    ensures r.Some? <==> Describable(all)
    ensures r.Some? ==> Describes(all, r.value)
  {
    var layout: map<string, nat> := map[];
    var stack := start;
    ghost var seen: multiset<Entry> := multiset{};
    while stack != []
      invariant Describes(seen, layout)
      invariant seen + FlattenStack(stack) == all
      decreases StackSize(stack)
    {
      var (node, path) := stack[|stack| - 1];
      var rest := stack[..|stack| - 1];
      Push(rest, (node, path));
      assert rest + [(node, path)] == stack;
      assert seen + FlattenStack(rest) + Flatten(node, path) == all;
      var ok;
      ok, layout, stack, seen := VisitNode(node, path, layout, rest, seen);
      if !ok {
        return None;
      }
    }
    assert seen + FlattenStack([]) == seen;
    r := Some(layout);
  }

  /** The explicit-stack walk finds exactly what the recursive reading finds: it
      accepts when that describes a layout, and gives that layout. */
  method WalkTree(tree: Value, prefix: seq<string>) returns (r: Option<map<string, nat>>)
    ensures r.Some? <==> Describable(Flatten(tree, prefix))
    ensures r.Some? ==> Describes(Flatten(tree, prefix), r.value)
  {
    Push([], (tree, prefix));
    assert [] + [(tree, prefix)] == [(tree, prefix)];
    r := Walk([(tree, prefix)], Flatten(tree, prefix));
  }

  // ---------------------------------------------------------------- the file lists of a torrent

  /** A v1 file: its path components (absent when malformed, a component absent when
      it is not text) and its dictionary. */
  datatype ListedFile = ListedFile(path: Option<seq<Option<string>>>, details: Value)

  /** The three ways the metadata can name files; `single` is the info dictionary of
      a torrent that has its own length. */
  datatype Info = Info(files: Option<seq<ListedFile>>, single: Option<Value>, tree: Option<Value>)

  function Texts(path: seq<Option<string>>): seq<string> {
    seq(|path|, i requires 0 <= i < |path| => if path[i].Some? then path[i].value else "")
  }

  /** A component that is not text decodes to nothing, which no component may be. */
  function CheckedFile(name: string, file: ListedFile): (e: Entry)
    ensures Proper(e)
  {
    if file.path.None? then Rejected else Checked([name] + Texts(file.path.value), file.details)
  }

  function Listed(name: string, files: seq<ListedFile>): (all: multiset<Entry>)
    ensures AllProper(all)
  {
    if files == [] then multiset{}
    else Listed(name, files[..|files| - 1]) + multiset{CheckedFile(name, files[|files| - 1])}
  }

  function TreePrefix(tree: Value, name: string): seq<string> {
    if tree.Dict? && |tree.entries| == 1 && tree.entries[0].1.Dict? && Lookup(tree.entries[0].1.entries, "").Some?
    then [] else [name]
  }

  /** Everything the metadata names, by the first of the three ways it uses. */
  function Entries(info: Info, name: string): (all: multiset<Entry>)
    ensures AllProper(all)
  {
    if info.files.Some? then Listed(name, info.files.value)
    else if info.single.Some? then multiset{Checked([name], info.single.value)}
    else if info.tree.Some? then Flatten(info.tree.value, TreePrefix(info.tree.value, name))
    else multiset{}
  }

  predicate Countable(layout: map<string, nat>) {
    layout != map[] && |layout| <= MAX_FILES
  }

  lemma LayoutIsUnique(all: multiset<Entry>, a: map<string, nat>, b: map<string, nat>)
    requires Describes(all, a) && Describes(all, b)
    ensures a == b
  {
    forall path | path in a ensures path in b && a[path] == b[path] {
      assert Provides(all, path);
      var e :| e in all && e.File? && e.path == path;
      assert Holds(a, e) && Holds(b, e);
    }
    forall path | path in b ensures path in a {
      assert Provides(all, path);
      var e :| e in all && e.File? && e.path == path;
      assert Holds(a, e);
    }
  }

  method ListFiles(name: string, files: seq<ListedFile>) returns (r: Option<map<string, nat>>)
    ensures r.Some? <==> Describable(Listed(name, files))
    ensures r.Some? ==> Describes(Listed(name, files), r.value)
  {
    var layout: map<string, nat> := map[];
    for k := 0 to |files|
      invariant Describes(Listed(name, files[..k]), layout)
    {
      assert files[..k + 1][..k] == files[..k];
      ListedGrows(name, files, k);
      var next: Option<map<string, nat>> := None;
      if files[k].path.Some? {
        next := Add(layout, [name] + Texts(files[k].path.value), files[k].details, Listed(name, files[..k]));
      } else {
        AddSpoils(Listed(name, files[..k]), layout, Rejected);
      }
      if next.None? {
        PartOfDescribable(Listed(name, files[..k + 1]), Listed(name, files));
        return None;
      }
      layout := next.value;
    }
    assert files[..|files|] == files;
    r := Some(layout);
  }

  lemma {:induction false} ListedGrows(name: string, files: seq<ListedFile>, k: nat)
    requires k < |files|
    ensures Listed(name, files[..k + 1]) == Listed(name, files[..k]) + multiset{CheckedFile(name, files[k])}
    ensures Listed(name, files[..k + 1]) <= Listed(name, files)
    decreases |files|
  {
    assert files[..k + 1][..k] == files[..k];
    if k + 1 < |files| {
      var init := files[..|files| - 1];
      ListedGrows(name, init, k);
      assert init[..k + 1] == files[..k + 1] && init[..k] == files[..k];
    } else {
      assert files[..k + 1] == files;
    }
  }

  /** The layout the raw metadata describes, if it describes one of a usable size. */
  method RawFiles(info: Info, name: string) returns (r: Option<map<string, nat>>)
    ensures r.Some? <==> exists layout :: Describes(Entries(info, name), layout) && Countable(layout)
    ensures r.Some? ==> Describes(Entries(info, name), r.value) && Countable(r.value)
  {
    ghost var all := Entries(info, name);
    if info.files.Some? {
      r := ListFiles(name, info.files.value);
    } else if info.single.Some? {
      assert Describes(multiset{}, map[]);
      r := Add(map[], [name], info.single.value, multiset{});
      assert multiset{} + multiset{Checked([name], info.single.value)} == all;
    } else if info.tree.Some? {
      r := WalkTree(info.tree.value, TreePrefix(info.tree.value, name));
    } else {
      assert Describes(multiset{}, map[]);
      r := Some(map[]);
    }
    if r.Some? && !Countable(r.value) {
      forall layout | Describes(all, layout) ensures layout == r.value {
        LayoutIsUnique(all, layout, r.value);
      }
      r := None;
    }
  }

  // ---------------------------------------------------------------- hybrids

  /** The files as component sequences with sizes, padding aside. */
  ghost function NamedSizes(all: multiset<Entry>): set<(seq<string>, nat)> {
    set e | e in all && e.File? :: (e.parts, e.size)
  }

  lemma SameNamedSizes(a: multiset<Entry>, b: multiset<Entry>, layout: map<string, nat>)
    requires AllProper(a) && AllProper(b) && Describes(a, layout) && Describes(b, layout)
    ensures NamedSizes(a) <= NamedSizes(b)
  {
    forall e | e in a && e.File? ensures (e.parts, e.size) in NamedSizes(b) {
      assert Holds(layout, e) && Proper(e);
      assert Provides(b, e.path);
      var f :| f in b && f.File? && f.path == e.path;
      assert Holds(layout, f) && Proper(f);
      JoinIsInjective(e.parts, f.parts);
    }
  }

  /** Equal joined layouts mean equal files: the same component sequences with the
      same sizes in the v1 list and in the v2 tree. */
  lemma HybridLayoutsAgree(a: multiset<Entry>, b: multiset<Entry>, layout: map<string, nat>)
    requires AllProper(a) && AllProper(b) && Describes(a, layout) && Describes(b, layout)
    ensures NamedSizes(a) == NamedSizes(b)
  {
    SameNamedSizes(a, b, layout);
    SameNamedSizes(b, a, layout);
  }

  /** A file of the decoding library's own, possibly sanitized, layout. */
  datatype LayoutFile = LayoutFile(symlink: bool, pad: bool, path: string, size: nat)

  function Split(path: string): (parts: seq<string>)
    ensures parts != []
  {
    if path == [] then [[]]
    else
      var init, last := Split(path[..|path| - 1]), path[|path| - 1];
      if last == '/' then init + [[]] else init[|init| - 1 := init[|init| - 1] + [last]]
  }

  const MAX_TOTAL := 0x7fff_ffff_ffff_ffff

  /** The bytes of the files that are not padding. */
  function Payload(listing: seq<LayoutFile>): nat {
    if listing == [] then 0
    else Payload(listing[..|listing| - 1]) + if listing[|listing| - 1].pad then 0 else listing[|listing| - 1].size
  }

  /** `layout` has exactly the files of the listing that are not padding, which have
      different paths of accepted components. */
  ghost predicate Mirrors(layout: map<string, nat>, listing: seq<LayoutFile>) {
    && (forall i :: 0 <= i < |listing| ==> MirrorsFile(layout, listing[i]))
    && (forall path :: path in layout ==> Components(Split(path)) && Lists(listing, path))
    && (forall i, j :: 0 <= i < j < |listing| && !listing[i].pad && !listing[j].pad ==>
         listing[i].path != listing[j].path)
  }

  ghost predicate MirrorsFile(layout: map<string, nat>, f: LayoutFile) {
    !f.symlink && (!f.pad ==> f.path in layout && layout[f.path] == f.size)
  }

  ghost predicate Lists(listing: seq<LayoutFile>, path: string) {
    exists i :: 0 <= i < |listing| && !listing[i].pad && listing[i].path == path
  }

  lemma MirrorsNext(layout: map<string, nat>, listing: seq<LayoutFile>, f: LayoutFile)
    requires Mirrors(layout, listing) && !f.symlink
    requires !f.pad ==> Components(Split(f.path)) && f.path !in layout
    ensures Mirrors(if f.pad then layout else layout[f.path := f.size], listing + [f])
  {
    var next, longer := if f.pad then layout else layout[f.path := f.size], listing + [f];
    forall i | 0 <= i < |longer|
      ensures MirrorsFile(next, longer[i]) && (i < |listing| && !longer[i].pad ==> longer[i].path in layout)
    {
      if i < |listing| {
        assert longer[i] == listing[i] && MirrorsFile(layout, listing[i]);
      }
    }
    forall path | path in next ensures Components(Split(path)) && Lists(longer, path) {
      if path in layout {
        var i :| 0 <= i < |listing| && !listing[i].pad && listing[i].path == path;
        assert longer[i] == listing[i];
      } else {
        assert longer[|listing|] == f;
      }
    }
  }

  lemma MirrorIsUnique(a: map<string, nat>, b: map<string, nat>, listing: seq<LayoutFile>)
    requires Mirrors(a, listing) && Mirrors(b, listing)
    ensures a == b
  {
    MirrorWithin(a, b, listing);
    MirrorWithin(b, a, listing);
    assert a.Keys == b.Keys;
  }

  lemma MirrorWithin(a: map<string, nat>, b: map<string, nat>, listing: seq<LayoutFile>)
    requires Mirrors(a, listing) && Mirrors(b, listing)
    ensures forall path :: path in a ==> path in b && a[path] == b[path]
  {
    forall path | path in a ensures path in b && a[path] == b[path] {
      assert Lists(listing, path);
      var i :| 0 <= i < |listing| && !listing[i].pad && listing[i].path == path;
      assert MirrorsFile(a, listing[i]) && MirrorsFile(b, listing[i]);
    }
  }

  /** A file that no layout can mirror after those before it. */
  lemma FaultyFile(seen: map<string, nat>, listing: seq<LayoutFile>, k: nat)
    requires k < |listing| && Mirrors(seen, listing[..k])
    requires var f := listing[k]; f.symlink || (!f.pad && (!Components(Split(f.path)) || f.path in seen))
    ensures forall layout :: !Mirrors(layout, listing)
  {
    var f := listing[k];
    forall layout ensures !Mirrors(layout, listing) {
      if MirrorsFile(layout, f) && !f.pad && f.path in seen {
        assert Lists(listing[..k], f.path);
        var i :| 0 <= i < k && !listing[..k][i].pad && listing[..k][i].path == f.path;
        assert listing[i].path == listing[k].path && !listing[i].pad;
      }
    }
  }

  /** The observed layout, when nothing in it is refused. */
  method Observe(listing: seq<LayoutFile>) returns (observed: Option<map<string, nat>>, total: nat)
    ensures observed.Some? <==> exists layout :: Mirrors(layout, listing)
    ensures observed.Some? ==> total == Payload(listing) && Mirrors(observed.value, listing)
  {
    var seen: map<string, nat> := map[];
    total := 0;
    for k := 0 to |listing|
      invariant total == Payload(listing[..k])
      invariant Mirrors(seen, listing[..k])
    {
      var file := listing[k];
      assert listing[..k + 1] == listing[..k] + [file] && listing[..k + 1][..k] == listing[..k];
      if file.symlink || (!file.pad && (!Components(Split(file.path)) || file.path in seen)) {
        FaultyFile(seen, listing, k);
        return None, total;
      }
      MirrorsNext(seen, listing[..k], file);
      if !file.pad {
        seen := seen[file.path := file.size];
        total := total + file.size;
      }
    }
    assert listing[..|listing|] == listing;
    observed := Some(seen);
  }

  predicate IsHybrid(info: Info) {
    info.tree.Some? && (info.files.Some? || info.single.Some?)
  }

  /** The info dictionary without its v1 files. */
  function TreeOnly(info: Info): Info {
    Info(None, None, info.tree)
  }

  /** One layout is what the metadata describes, what the library observed and, in a
      hybrid, what the v2 tree alone describes. */
  ghost predicate Consistent(info: Info, name: string, listing: seq<LayoutFile>, layout: map<string, nat>) {
    && Describes(Entries(info, name), layout) && 0 < |layout| <= 10000 && Mirrors(layout, listing)
    && (info.tree.Some? && (info.files.Some? || info.single.Some?) ==>
          Describes(Entries(Info(None, None, info.tree), name), layout))
  }

  /** What the raw metadata describes is what any consistent layout must be. */
  lemma OnlyOneLayout(info: Info, name: string, listing: seq<LayoutFile>, layout: map<string, nat>)
    requires Consistent(info, name, listing, layout)
    ensures forall other :: Describes(Entries(info, name), other) ==> other == layout
    ensures forall other :: Mirrors(other, listing) ==> other == layout
    ensures forall other :: IsHybrid(info) && Describes(Entries(TreeOnly(info), name), other) ==> other == layout
  {
    forall other | Describes(Entries(info, name), other) ensures other == layout {
      LayoutIsUnique(Entries(info, name), other, layout);
    }
    forall other | Mirrors(other, listing) ensures other == layout {
      MirrorIsUnique(other, layout, listing);
    }
    forall other | IsHybrid(info) && Describes(Entries(TreeOnly(info), name), other) ensures other == layout {
      LayoutIsUnique(Entries(TreeOnly(info), name), other, layout);
    }
  }

  ghost predicate Agreed(info: Info, name: string, listing: seq<LayoutFile>) {
    exists layout :: Consistent(info, name, listing, layout)
  }

  /** What reading the raw metadata found. */
  ghost predicate Found(all: multiset<Entry>, r: Option<map<string, nat>>) {
    if r.Some? then Describes(all, r.value) && Countable(r.value)
    else forall layout :: Describes(all, layout) ==> !Countable(layout)
  }

  /** What observing the library's listing found. */
  ghost predicate Observed(listing: seq<LayoutFile>, r: Option<map<string, nat>>) {
    if r.Some? then Mirrors(r.value, listing) else forall layout :: !Mirrors(layout, listing)
  }

  /** The comparisons decide whether there is a consistent layout. */
  lemma ComparisonsDecide(
      info: Info, name: string, listing: seq<LayoutFile>,
      original: Option<map<string, nat>>, observed: Option<map<string, nat>>, v2: Option<map<string, nat>>)
    requires Found(Entries(info, name), original) && Observed(listing, observed)
    requires IsHybrid(info) ==> Found(Entries(TreeOnly(info), name), v2)
    ensures Agreed(info, name, listing) <==>
            original.Some? && observed == original && (IsHybrid(info) ==> v2 == original)
  {
    if original.Some? && observed == original && (IsHybrid(info) ==> v2 == original) {
      assert Consistent(info, name, listing, original.value);
    }
    if Agreed(info, name, listing) {
      var layout :| Consistent(info, name, listing, layout);
      OnlyOneLayout(info, name, listing, layout);
    }
  }

  /** Both readings of the raw metadata; the second only for a hybrid. */
  method ReadBoth(info: Info, name: string) returns (original: Option<map<string, nat>>, v2: Option<map<string, nat>>)
    ensures Found(Entries(info, name), original)
    ensures IsHybrid(info) ==> Found(Entries(TreeOnly(info), name), v2)
  {
    original := RawFiles(info, name);
    v2 := None;
    if IsHybrid(info) {
      v2 := RawFiles(TreeOnly(info), name);
    }
  }

  /** Accepting a torrent: one layout is described and observed, within the limits, and
      the library found an identity of some version. */
  method Accept(info: Info, name: string, listing: seq<LayoutFile>, hasV1: bool, hasV2: bool) returns (ok: bool)
    ensures ok <==>
            && Component(name) && |listing| <= 20000 && 0 < Payload(listing) <= 9223372036854775807
            && Agreed(info, name, listing) && (hasV1 || hasV2)
  {
    if !Component(name) || |listing| > MAX_FILES * 2 {
      return false;
    }
    var original, v2 := ReadBoth(info, name);
    var observed, total := Observe(listing);
    ComparisonsDecide(info, name, listing, original, observed, v2);
    ok := original.Some? && observed == original && 0 < total <= MAX_TOTAL && (IsHybrid(info) ==> v2 == original)
          && (hasV1 || hasV2);
  }

  /** What acceptance means for a hybrid: the v1 list and the v2 tree name the same
      files, component by component, with the same sizes. */
  lemma AcceptedHybridsAgree(info: Info, name: string, listing: seq<LayoutFile>, layout: map<string, nat>)
    requires Consistent(info, name, listing, layout)
    requires info.tree.Some? && (info.files.Some? || info.single.Some?)
    ensures NamedSizes(Entries(info, name)) == NamedSizes(Entries(Info(None, None, info.tree), name))
  {
    HybridLayoutsAgree(Entries(info, name), Entries(Info(None, None, info.tree), name), layout);
  }

  // ---------------------------------------------------------------- names, spelled out

  lemma {:induction false} Utf8Joins(a: string, b: string)
    ensures Utf8Size(a + b) == Utf8Size(a) + Utf8Size(b)
  {
    if a == "" {
      assert a + b == b;
    } else {
      Utf8Joins(a[1..], b);
      assert (a + b)[1..] == a[1..] + b;
    }
  }

  /** UTF-8 takes one byte up to U+7F, two up to U+7FF, three up to U+FFFF and four beyond. */
  lemma Utf8Spelled(ch: char)
    ensures Utf8Size([ch]) == 1 <==> ch <= '\U{7f}'
    ensures Utf8Size([ch]) == 2 <==> '\U{80}' <= ch <= '\U{7ff}'
    ensures Utf8Size([ch]) == 3 <==> '\U{800}' <= ch <= '\U{ffff}'
    ensures Utf8Size([ch]) == 4 <==> '\U{10000}' <= ch
  {
    assert [ch][1..] == "";
  }

  /** Characters that no component may hold. */
  predicate Forbidden(ch: char) {
    ch == '/' || ch == '\\' || ch == ':' || ch < ' ' || ch == '\U{7f}'
  }

  /** A component is any other text of one to 255 bytes than the two dot names. */
  lemma ComponentSpelled(text: string)
    ensures Component(text) <==>
            && text != "." && text != ".." && 0 < Utf8Size(text) <= 255
            && !exists head, ch, tail :: text == head + [ch] + tail && Forbidden(ch)
  {
    if i :| 0 <= i < |text| && Forbidden(text[i]) {
      assert text == text[..i] + [text[i]] + text[i + 1..];
    }
    if head, ch, tail :| text == head + [ch] + tail && Forbidden(ch) {
      assert text[|head|] == ch;
    }
  }

  /** Joining puts one slash between components, and splitting gives them back. */
  lemma JoinSpelled(first: string, rest: seq<string>)
    ensures Join([first]) == first
    ensures rest != [] ==> Join([first] + rest) == first + "/" + Join(rest)
  {
    assert ([first] + rest)[1..] == rest;
    assert first + [] == first;
  }

  lemma {:induction false} SplitNext(head: string, part: string)
    requires forall i :: 0 <= i < |part| ==> part[i] != '/'
    ensures Split(head + "/" + part) == Split(head) + [part]
    ensures Split(part) == [part]
    decreases |part|
  {
    var path := head + "/" + part;
    if part == "" {
      assert path[..|path| - 1] == head && path[|path| - 1] == '/';
    } else {
      var init, last := part[..|part| - 1], part[|part| - 1];
      SplitNext(head, init);
      assert path[..|path| - 1] == head + "/" + init && path[|path| - 1] == last;
      assert part == init + [last];
    }
  }

  lemma {:induction false} JoinLast(parts: seq<string>, part: string)
    requires parts != []
    ensures Join(parts + [part]) == Join(parts) + "/" + part
    decreases |parts|
  {
    var first, rest := parts[0], parts[1..];
    JoinSpelled(first, rest + [part]);
    assert parts + [part] == [first] + (rest + [part]) && parts == [first] + rest;
    if rest == [] {
      assert rest + [part] == [part];
      JoinSpelled(part, []);
    } else {
      JoinLast(rest, part);
      JoinSpelled(first, rest);
      assert first + "/" + (Join(rest) + "/" + part) == (first + "/" + Join(rest)) + "/" + part;
    }
  }

  lemma {:induction false} SplitJoin(parts: seq<string>)
    requires parts != [] && Components(parts)
    ensures Split(Join(parts)) == parts
    decreases |parts|
  {
    var init, last := parts[..|parts| - 1], parts[|parts| - 1];
    assert parts == init + [last];
    if init == [] {
      SplitNext("", last);
      JoinSpelled(last, []);
    } else {
      SplitJoin(init);
      JoinLast(init, last);
      SplitNext(Join(init), last);
    }
  }

  // ---------------------------------------------------------------- files, spelled out

  /** The first value under a key; a decoded dictionary has each key once. */
  ghost predicate Under(entries: seq<(Key, Value)>, name: string, value: Value) {
    exists i :: UnderAt(entries, name, value, i)
  }

  ghost predicate UnderAt(entries: seq<(Key, Value)>, name: string, value: Value, i: int) {
    && 0 <= i < |entries| && entries[i].0.raw == name && entries[i].1 == value
    && forall j :: 0 <= j < i ==> entries[j].0.raw != name
  }

  ghost predicate HasKey(entries: seq<(Key, Value)>, name: string) {
    exists i :: 0 <= i < |entries| && entries[i].0.raw == name
  }

  lemma {:induction false} LookupSpelled(entries: seq<(Key, Value)>, name: string)
    ensures Lookup(entries, name).Some? ==> Under(entries, name, Lookup(entries, name).value)
    ensures Lookup(entries, name).Some? <==> HasKey(entries, name)
  {
    if entries != [] {
      if entries[0].0.raw == name {
        assert UnderAt(entries, name, entries[0].1, 0);
      } else {
        LookupSpelled(entries[1..], name);
        if HasKey(entries, name) {
          var i :| 0 <= i < |entries| && entries[i].0.raw == name;
          assert entries[1..][i - 1].0.raw == name;
        }
        if HasKey(entries[1..], name) {
          var value := Lookup(entries, name).value;
          var i :| UnderAt(entries[1..], name, value, i);
          assert UnderAt(entries, name, value, i + 1);
        }
      }
    }
  }

  lemma UnderOnce(entries: seq<(Key, Value)>, name: string, a: Value, b: Value)
    requires Under(entries, name, a) && Under(entries, name, b)
    ensures a == b
  {
    var i :| UnderAt(entries, name, a, i);
    var j :| UnderAt(entries, name, b, j);
    assert i == j;
  }

  lemma LookupIs(entries: seq<(Key, Value)>, name: string, value: Value)
    ensures Lookup(entries, name) == Some(value) <==> Under(entries, name, value)
  {
    LookupSpelled(entries, name);
    if Under(entries, name, value) {
      var i :| UnderAt(entries, name, value, i);
      UnderOnce(entries, name, value, Lookup(entries, name).value);
    }
  }

  /** A dictionary that is no symbolic link: no link path, and attributes, if any, that
      are bytes without an "l". */
  ghost predicate NoLink(entries: seq<(Key, Value)>) {
    && !HasKey(entries, "symlink path")
    && (HasKey(entries, "attr") ==> exists raw :: Under(entries, "attr", Bytes(raw)) && 'l' !in raw)
  }

  ghost predicate IsPad(entries: seq<(Key, Value)>) {
    exists raw :: Under(entries, "attr", Bytes(raw)) && 'p' in raw
  }

  lemma AttributesSpelled(entries: seq<(Key, Value)>)
    ensures var flags := if Lookup(entries, "attr").Some? then Lookup(entries, "attr").value else Bytes("");
            && ((flags.Bytes? && 'l' !in flags.raw && Lookup(entries, "symlink path").None?) <==> NoLink(entries))
            && ((flags.Bytes? && 'p' in flags.raw) <==> IsPad(entries))
  {
    LookupSpelled(entries, "attr");
    LookupSpelled(entries, "symlink path");
    forall raw ensures Lookup(entries, "attr") == Some(Bytes(raw)) <==> Under(entries, "attr", Bytes(raw)) {
      LookupIs(entries, "attr", Bytes(raw));
    }
  }

  /** What a file's dictionary under a path comes to. Padding needs a valid path but no
      length; any other file needs a length that is a number and not negative. */
  lemma FileSpelled(parts: seq<string>, details: Value, size: nat)
    ensures Checked(parts, details) == File(parts, Join(parts), size) <==>
            && details.Dict? && NoLink(details.entries) && !IsPad(details.entries)
            && Components(parts) && |Join(parts)| <= 2048 && Under(details.entries, "length", Number(size))
    ensures Checked(parts, details) == Padding <==>
            && details.Dict? && NoLink(details.entries) && IsPad(details.entries)
            && Components(parts) && |Join(parts)| <= 2048
  {
    if details.Dict? {
      AttributesSpelled(details.entries);
      LookupIs(details.entries, "length", Number(size));
    }
  }

  // ---------------------------------------------------------------- trees, spelled out

  /** Following the names of `path` from `node` leads to a file's dictionary: each name is
      a component, and the file stands alone under the empty name. */
  ghost predicate LeadsTo(node: Value, path: seq<string>, details: Value)
    decreases node
  {
    node.Dict? &&
    if path == [] then |node.entries| == 1 && node.entries[0].0.raw == "" && node.entries[0].1 == details
    else
      exists i :: 0 <= i < |node.entries|
                  && node.entries[i].0.raw != "" && node.entries[i].0.text == Some(path[0]) && Component(path[0])
                  && LeadsTo(node.entries[i].1, path[1..], details)
  }

  /** Some dictionary of the tree breaks its rules: a leaf that is no dictionary, a file
      that does not stand alone, or a name that is no component. */
  ghost predicate Broken(node: Value)
    decreases node
  {
    !node.Dict?
    || exists i :: 0 <= i < |node.entries|
                   && if node.entries[i].0.raw == "" then |node.entries| != 1
                      else if node.entries[i].0.text.None? || !Component(node.entries[i].0.text.value) then true
                      else Broken(node.entries[i].1)
  }

  lemma {:induction false} EntriesHold(node: Value, k: nat, prefix: seq<string>, e: Entry)
    requires node.Dict? && k <= |node.entries| && forall x :: x in node.entries ==> x.1 < node
    ensures e in FlattenEntries(node, node.entries[k..], prefix) <==>
            exists i :: k <= i < |node.entries| && EntryHolds(node, i, prefix, e)
    decreases |node.entries| - k
  {
    if k < |node.entries| {
      NextEntry(node, k, prefix);
      EntriesHold(node, k + 1, prefix, e);
      assert EntryHolds(node, k, prefix, e) <==> e in FlattenEntry(node, node.entries[k], prefix);
    }
  }

  ghost predicate EntryHolds(node: Value, i: nat, prefix: seq<string>, e: Entry)
    requires node.Dict? && i < |node.entries| && forall x :: x in node.entries ==> x.1 < node
  {
    e in FlattenEntry(node, node.entries[i], prefix)
  }

  lemma NodeHolds(node: Value, prefix: seq<string>, e: Entry)
    requires node.Dict?
    ensures forall x :: x in node.entries ==> x.1 < node
    ensures e in Flatten(node, prefix) <==> exists i :: 0 <= i < |node.entries| && EntryHolds(node, i, prefix, e)
  {
    assert forall x :: x in node.entries ==> x.1 < node;
    EntriesHold(node, 0, prefix, e);
    assert node.entries[0..] == node.entries;
  }

  /** An entry of the flattened tree comes from a path that leads to a file, or from
      somewhere that breaks the rules. */
  ghost predicate ComesFrom(node: Value, prefix: seq<string>, e: Entry) {
    || (exists path, details :: LeadsTo(node, path, details) && Checked(prefix + path, details) == e)
    || (e == Rejected && Broken(node))
  }

  /** A path below a child is a path below its parent. */
  lemma ChildLeads(node: Value, i: nat, path: seq<string>, details: Value)
    requires node.Dict? && i < |node.entries| && node.entries[i].1 < node && node.entries[i].0.raw != ""
    requires node.entries[i].0.text.Some? && Component(node.entries[i].0.text.value)
    requires LeadsTo(node.entries[i].1, path, details)
    ensures LeadsTo(node, [node.entries[i].0.text.value] + path, details)
  {
    assert ([node.entries[i].0.text.value] + path)[1..] == path;
  }

  lemma ChildComesFrom(node: Value, i: nat, prefix: seq<string>, e: Entry)
    requires node.Dict? && i < |node.entries| && node.entries[i].1 < node && node.entries[i].0.raw != ""
    requires node.entries[i].0.text.Some? && Component(node.entries[i].0.text.value)
    requires ComesFrom(node.entries[i].1, prefix + [node.entries[i].0.text.value], e)
    ensures ComesFrom(node, prefix, e)
  {
    var name, child := node.entries[i].0.text.value, node.entries[i].1;
    if path, details :| LeadsTo(child, path, details) && Checked(prefix + [name] + path, details) == e {
      ChildLeads(node, i, path, details);
      assert prefix + ([name] + path) == prefix + [name] + path;
    }
  }

  lemma {:induction false} FlattenSound(node: Value, prefix: seq<string>, e: Entry)
    requires e in Flatten(node, prefix)
    ensures ComesFrom(node, prefix, e)
    decreases node
  {
    if node.Dict? {
      NodeHolds(node, prefix, e);
      var i: nat :| i < |node.entries| && EntryHolds(node, i, prefix, e);
      assert node.entries[i] in node.entries;
      var key, child := node.entries[i].0, node.entries[i].1;
      if key.raw == "" && |node.entries| == 1 {
        assert prefix + [] == prefix && LeadsTo(node, [], child);
      } else if key.raw != "" && key.text.Some? && Component(key.text.value) {
        FlattenSound(child, prefix + [key.text.value], e);
        ChildComesFrom(node, i, prefix, e);
      }
    }
  }

  lemma ChildHolds(node: Value, i: nat, prefix: seq<string>, e: Entry)
    requires node.Dict? && i < |node.entries| && node.entries[i].1 < node && node.entries[i].0.raw != ""
    requires node.entries[i].0.text.Some? && Component(node.entries[i].0.text.value)
    requires e in Flatten(node.entries[i].1, prefix + [node.entries[i].0.text.value])
    ensures e in Flatten(node, prefix)
  {
    NodeHolds(node, prefix, e);
    assert EntryHolds(node, i, prefix, e);
  }

  lemma {:induction false} FlattenComplete(node: Value, prefix: seq<string>, path: seq<string>, details: Value)
    requires LeadsTo(node, path, details)
    ensures Checked(prefix + path, details) in Flatten(node, prefix)
    decreases node
  {
    if path == [] {
      assert prefix + [] == prefix;
      NodeHolds(node, prefix, Checked(prefix, details));
      assert EntryHolds(node, 0, prefix, Checked(prefix, details));
    } else {
      var i: nat :| i < |node.entries| && node.entries[i].0.raw != "" && Component(path[0])
                    && node.entries[i].0.text == Some(path[0]) && LeadsTo(node.entries[i].1, path[1..], details);
      assert node.entries[i] in node.entries;
      FlattenComplete(node.entries[i].1, prefix + [path[0]], path[1..], details);
      assert prefix + [path[0]] + path[1..] == prefix + path;
      ChildHolds(node, i, prefix, Checked(prefix + path, details));
    }
  }

  lemma {:induction false} BrokenIsRejected(node: Value, prefix: seq<string>)
    requires Broken(node)
    ensures Rejected in Flatten(node, prefix)
    decreases node
  {
    if node.Dict? {
      NodeHolds(node, prefix, Rejected);
      var i :| 0 <= i < |node.entries|
               && if node.entries[i].0.raw == "" then |node.entries| != 1
                  else if node.entries[i].0.text.None? || !Component(node.entries[i].0.text.value) then true
                  else Broken(node.entries[i].1);
      var (key, child) := node.entries[i];
      assert (key, child) in node.entries;
      if key.raw != "" && key.text.Some? && Component(key.text.value) {
        BrokenIsRejected(child, prefix + [key.text.value]);
      }
      assert EntryHolds(node, i, prefix, Rejected);
    }
  }

  /** What the recursive reading holds: exactly the files that paths lead to, and a
      rejection exactly when a file is rejected or a rule broken somewhere. */
  lemma TreeSpelled(node: Value, prefix: seq<string>, e: Entry)
    ensures e in Flatten(node, prefix) <==> ComesFrom(node, prefix, e)
  {
    if e in Flatten(node, prefix) {
      FlattenSound(node, prefix, e);
    }
    if path, details :| LeadsTo(node, path, details) && Checked(prefix + path, details) == e {
      FlattenComplete(node, prefix, path, details);
    }
    if Broken(node) {
      BrokenIsRejected(node, prefix);
    }
  }

  /** A tree of one name that is a file itself has no directory of the torrent's name. */
  lemma PrefixSpelled(tree: Value, name: string)
    requires tree.Dict?
    ensures TreePrefix(tree, name)
         == if |tree.entries| == 1 && tree.entries[0].1.Dict? && HasKey(tree.entries[0].1.entries, "")
            then [] else [name]
  {
    if |tree.entries| == 1 && tree.entries[0].1.Dict? {
      LookupSpelled(tree.entries[0].1.entries, "");
    }
  }

  lemma {:induction false} ListedSize(name: string, files: seq<ListedFile>)
    ensures |Listed(name, files)| == |files|
  {
    if files != [] {
      ListedSize(name, files[..|files| - 1]);
    }
  }

  ghost predicate AnyListed(name: string, files: seq<ListedFile>, n: nat, e: Entry)
    requires n <= |files|
  {
    exists i: nat :: i < n && ListedAs(name, files[i], e)
  }

  lemma AnyListedNext(name: string, files: seq<ListedFile>, n: nat, e: Entry)
    requires n < |files|
    ensures AnyListed(name, files, n + 1, e) <==> AnyListed(name, files, n, e) || ListedAs(name, files[n], e)
  {
  }

  lemma {:induction false} ListedBefore(name: string, files: seq<ListedFile>, n: nat, e: Entry)
    requires n <= |files|
    ensures e in Listed(name, files[..n]) <==> AnyListed(name, files, n, e)
  {
    if n > 0 {
      ListedBefore(name, files, n - 1, e);
      ListedGrows(name, files, n - 1);
      ListedOnce(name, files[n - 1], e);
      AnyListedNext(name, files, n - 1, e);
    } else {
      assert files[..0] == [];
    }
  }

  /** A v1 list has one entry for each file, below the torrent's name. */
  lemma ListSpelled(name: string, files: seq<ListedFile>, e: Entry)
    ensures e in Listed(name, files) <==> AnyListed(name, files, |files|, e)
    ensures |Listed(name, files)| == |files|
  {
    ListedSize(name, files);
    ListedBefore(name, files, |files|, e);
    assert files[..|files|] == files;
  }

  lemma ListedOnce(name: string, file: ListedFile, e: Entry)
    ensures ListedAs(name, file, e) <==> e == CheckedFile(name, file)
  {
    if file.path.Some? {
      var path := file.path.value;
      if k :| 0 <= k < |path| && path[k].None? {
        assert ([name] + Texts(path))[k + 1] == "";
      } else {
        assert Texts(path) == seq(|path|, k requires 0 <= k < |path| && path[k].Some? => path[k].value);
      }
    }
  }

  ghost predicate ListedAs(name: string, file: ListedFile, e: Entry) {
    match file.path
    case None => e == Rejected
    case Some(path) =>
      if exists k :: 0 <= k < |path| && path[k].None? then e == Rejected
      else
        e == Checked(
               [name] + seq(|path|, k requires 0 <= k < |path| && path[k].Some? => path[k].value), file.details)
  }

  /** The payload is the sum over the files that are not padding. */
  lemma PayloadSpelled(listing: seq<LayoutFile>, f: LayoutFile)
    ensures Payload([]) == 0
    ensures Payload(listing + [f]) == Payload(listing) + if f.pad then 0 else f.size
  {
    assert (listing + [f])[..|listing|] == listing;
  }
}
