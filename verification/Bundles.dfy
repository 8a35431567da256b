/** What a backup holds (services/app/state_bundle.py): the union of the journal roots,
    the files of a bundle, and the check that a bundle passes before it is used. */
module Bundles {
  import opened Outcomes
  import Q = RecoveryQueue
  import StateBundle

  const SCHEMA := StateBundle.SCHEMA

  // ---------------------------------------------------------------- journals

  const MAX_JOURNALS: nat := 10000
  const MAX_JOURNAL_BYTES: nat := 4 * 1024 * 1024
  const MAX_TOTAL_JOURNAL_BYTES: nat := 256 * 1024 * 1024

  datatype FileDigest = FileDigest(size: nat, sha256: string)

  datatype Entry = Entry(name: string, digest: FileDigest)

  datatype JournalError = Unrecognized | Conflicting | OverBudget

  predicate IsLowerHex(ch: char) {
    '0' <= ch <= '9' || 'a' <= ch <= 'f'
  }

  /** The only spelling that the UUID constructor gives back unchanged. */
  predicate CanonicalUuid(s: string) {
    |s| == 36 && forall i :: 0 <= i < 36 ==> if i in {8, 13, 18, 23} then s[i] == '-' else IsLowerHex(s[i])
  }

  predicate IsJson(name: string) {
    Q.EndsWith(name, ".json")
  }

  predicate JournalName(name: string) {
    var bare := if Q.StartsWith(name, "combine-") then name[8..] else name;
    IsJson(name) && |bare| >= 5 && CanonicalUuid(bare[..|bare| - 5])
  }

  function TotalSize(files: seq<Entry>): nat {
    if files == [] then 0 else TotalSize(files[..|files| - 1]) + files[|files| - 1].digest.size
  }

  predicate WithinBudget(files: seq<Entry>) {
    && |files| <= 10_000
    && TotalSize(files) <= 268_435_456
    && forall i :: 0 <= i < |files| ==> files[i].digest.size <= 4_194_304
  }

  ghost predicate Mentions(files: seq<Entry>, name: string) {
    exists f :: f in files && f.name == name
  }

  /** One journal for each identity: the first entry of each name, in scan order. */
  ghost function Union(entries: seq<Entry>): seq<Entry> {
    if entries == [] then []
    else
      var earlier, e := Union(entries[..|entries| - 1]), entries[|entries| - 1];
      if !IsJson(e.name) || Mentions(earlier, e.name) then earlier else earlier + [e]
  }

  function Concatenated(roots: seq<seq<Entry>>): seq<Entry> {
    if roots == [] then [] else Concatenated(roots[..|roots| - 1]) + roots[|roots| - 1]
  }

  ghost predicate Recognized(entries: seq<Entry>) {
    forall e :: e in entries && IsJson(e.name) ==> JournalName(e.name)
  }

  ghost predicate Agreeing(entries: seq<Entry>) {
    forall e, f :: e in entries && f in entries && IsJson(e.name) && e.name == f.name ==> e == f
  }

  /** The union holds exactly the journals of the roots, one for each name. */
  lemma {:induction false} UnionIsExact(entries: seq<Entry>)
    ensures forall f :: f in Union(entries) ==> f in entries && IsJson(f.name)
    ensures forall e :: e in entries && IsJson(e.name) ==> Mentions(Union(entries), e.name)
    ensures forall i, j :: 0 <= i < j < |Union(entries)| ==> Union(entries)[i].name != Union(entries)[j].name
    ensures Agreeing(entries) ==> forall e :: e in entries && IsJson(e.name) ==> e in Union(entries)
  {
    if entries != [] {
      var init, e := entries[..|entries| - 1], entries[|entries| - 1];
      UnionIsExact(init);
      assert entries == init + [e];
      var u := Union(entries);
      if IsJson(e.name) && !Mentions(Union(init), e.name) {
        assert u == Union(init) + [e];
        assert e in u;
      }
      forall x | x in entries && IsJson(x.name) ensures Mentions(u, x.name) {
        if x in init {
          var f :| f in Union(init) && f.name == x.name;
          assert f in u;
        }
      }
      if Agreeing(entries) {
        assert Agreeing(init);
        forall x | x in entries && IsJson(x.name) ensures x in u {
          if x !in init && Mentions(Union(init), x.name) {
            var f :| f in Union(init) && f.name == x.name;
            assert f in entries;
          }
        }
      }
    }
  }

  lemma ShorterFits(files: seq<Entry>, e: Entry)
    requires WithinBudget(files + [e])
    ensures WithinBudget(files)
  {
    assert (files + [e])[..|files|] == files;
    assert forall i :: 0 <= i < |files| ==> (files + [e])[i] == files[i];
  }

  lemma {:induction false} BudgetShrinks(entries: seq<Entry>, k: nat)
    requires k <= |entries| && WithinBudget(Union(entries))
    ensures WithinBudget(Union(entries[..k]))
    decreases |entries|
  {
    if k == |entries| {
      assert entries[..k] == entries;
    } else {
      var init, e := entries[..|entries| - 1], entries[|entries| - 1];
      if Union(entries) != Union(init) {
        ShorterFits(Union(init), e);
      }
      BudgetShrinks(init, k);
      assert init[..k] == entries[..k];
    }
  }

  /** A problem in what was scanned so far is a problem of the whole. */
  lemma PrefixProblems(seen: seq<Entry>, all: seq<Entry>)
    requires seen <= all
    ensures Recognized(all) ==> Recognized(seen)
    ensures Agreeing(all) ==> Agreeing(seen)
    ensures WithinBudget(Union(all)) ==> WithinBudget(Union(seen))
  {
    assert forall e :: e in seen ==> e in all;
    if WithinBudget(Union(all)) {
      BudgetShrinks(all, |seen|);
      assert all[..|seen|] == seen;
    }
  }

  /** What scanning `all` must come to: the union exactly when every JSON entry is a
      journal, journals of one name agree and the union fits the budget. */
  ghost predicate Collects(all: seq<Entry>, r: Result<seq<Entry>, JournalError>) {
    match r
    case Ok(files) => Recognized(all) && Agreeing(all) && WithinBudget(files) && files == Union(all)
    case Err(Unrecognized) => !Recognized(all)
    case Err(Conflicting) => !Agreeing(all)
    case Err(OverBudget) => !WithinBudget(Union(all))
  }

  lemma RepeatedJournal(seen: seq<Entry>, e: Entry, f: Entry)
    requires Recognized(seen) && Agreeing(seen) && JournalName(e.name)
    requires f in Union(seen) && f.name == e.name
    ensures f != e ==> !Agreeing(seen + [e])
    ensures f == e ==> Recognized(seen + [e]) && Agreeing(seen + [e]) && Union(seen + [e]) == Union(seen)
  {
    UnionIsExact(seen);
    var next := seen + [e];
    assert next[..|next| - 1] == seen && e in next && f in next;
    assert forall x :: x in next <==> x in seen || x == e;
  }

  lemma NewJournal(seen: seq<Entry>, e: Entry)
    requires Recognized(seen) && Agreeing(seen)
    requires IsJson(e.name) ==> JournalName(e.name) && !Mentions(Union(seen), e.name)
    ensures Recognized(seen + [e]) && Agreeing(seen + [e])
    ensures Union(seen + [e]) == Union(seen) + if IsJson(e.name) then [e] else []
    ensures TotalSize(Union(seen) + [e]) == TotalSize(Union(seen)) + e.digest.size
  {
    UnionIsExact(seen);
    var next := seen + [e];
    assert next[..|next| - 1] == seen;
    assert (Union(seen) + [e])[..|Union(seen)|] == Union(seen);
    assert forall x :: x in next <==> x in seen || x == e;
  }

  lemma UnknownEntry(seen: seq<Entry>, e: Entry)
    requires IsJson(e.name) && !JournalName(e.name)
    ensures Collects(seen + [e], Err(Unrecognized))
  {
    assert (seen + [e])[|seen|] == e;
  }

  lemma RepeatedEntry(seen: seq<Entry>, files: seq<Entry>, e: Entry, f: Entry)
    requires Collects(seen, Ok(files)) && JournalName(e.name) && f in files && f.name == e.name
    ensures Collects(seen + [e], if f.digest != e.digest then Err(Conflicting) else Ok(files))
  {
    RepeatedJournal(seen, e, f);
  }

  lemma OtherEntry(seen: seq<Entry>, files: seq<Entry>, e: Entry)
    requires Collects(seen, Ok(files)) && !IsJson(e.name)
    ensures Collects(seen + [e], Ok(files))
  {
    NewJournal(seen, e);
    assert Union(seen) + [] == Union(seen);
  }

  lemma FitsWithOne(files: seq<Entry>, e: Entry)
    requires WithinBudget(files)
    ensures TotalSize(files + [e]) == TotalSize(files) + e.digest.size
    ensures WithinBudget(files + [e]) <==>
            && e.digest.size <= MAX_JOURNAL_BYTES && TotalSize(files + [e]) <= MAX_TOTAL_JOURNAL_BYTES
            && |files| + 1 <= MAX_JOURNALS
  {
    assert (files + [e])[..|files|] == files && (files + [e])[|files|] == e;
    assert forall i :: 0 <= i < |files| ==> (files + [e])[i] == files[i];
  }

  lemma NewEntry(seen: seq<Entry>, files: seq<Entry>, e: Entry)
    requires Collects(seen, Ok(files)) && JournalName(e.name) && !Mentions(files, e.name)
    ensures TotalSize(files + [e]) == TotalSize(files) + e.digest.size
    ensures Collects(seen + [e],
                     if e.digest.size > MAX_JOURNAL_BYTES || TotalSize(files + [e]) > MAX_TOTAL_JOURNAL_BYTES
                        || |files| + 1 > MAX_JOURNALS
                     then Err(OverBudget) else Ok(files + [e]))
  {
    NewJournal(seen, e);
    FitsWithOne(files, e);
  }

  /** One directory entry of the scan. */
  method AddJournal(files: seq<Entry>, total: nat, e: Entry, ghost seen: seq<Entry>)
    returns (r: Result<seq<Entry>, JournalError>, newTotal: nat)
    requires Collects(seen, Ok(files)) && total == TotalSize(files)
    ensures Collects(seen + [e], r)
    ensures r.Ok? ==> newTotal == TotalSize(r.value)
  {
    newTotal := total;
    if !IsJson(e.name) {
      OtherEntry(seen, files, e);
      r := Ok(files);
    } else if !JournalName(e.name) {
      UnknownEntry(seen, e);
      r := Err(Unrecognized);
    } else if i :| 0 <= i < |files| && files[i].name == e.name {
      RepeatedEntry(seen, files, e, files[i]);
      r := if files[i].digest != e.digest then Err(Conflicting) else Ok(files);
    } else {
      NewEntry(seen, files, e);
      newTotal := total + e.digest.size;
      r := if e.digest.size > MAX_JOURNAL_BYTES || newTotal > MAX_TOTAL_JOURNAL_BYTES || |files| + 1 > MAX_JOURNALS
           then Err(OverBudget) else Ok(files + [e]);
    }
  }

  lemma ProblemsRemain(seen: seq<Entry>, all: seq<Entry>, r: Result<seq<Entry>, JournalError>)
    requires Collects(seen, r) && r.Err? && seen <= all
    ensures Collects(all, r)
  {
    PrefixProblems(seen, all);
  }

  lemma PrefixNext(before: seq<Entry>, root: seq<Entry>, b: nat)
    requires b < |root|
    ensures before + root[..b] + [root[b]] == before + root[..b + 1] <= before + root
  {
  }

  /** The entries of one root, on top of what earlier roots gave. */
  method ScanRoot(files: seq<Entry>, total: nat, root: seq<Entry>, ghost before: seq<Entry>)
    returns (r: Result<seq<Entry>, JournalError>, newTotal: nat)
    requires Collects(before, Ok(files)) && total == TotalSize(files)
    ensures Collects(before + root, r)
    ensures r.Ok? ==> newTotal == TotalSize(r.value)
  {
    r, newTotal := Ok(files), total;
    ghost var seen := before;
    assert seen == before + root[..0];
    for b := 0 to |root|
      invariant seen == before + root[..b]
      invariant r.Ok? && Collects(seen, r) && newTotal == TotalSize(r.value)
    {
      r, newTotal := AddJournal(r.value, newTotal, root[b], seen);
      PrefixNext(before, root, b);
      seen := seen + [root[b]];
      if r.Err? {
        ProblemsRemain(seen, before + root, r);
        return;
      }
    }
    assert root[..|root|] == root;
  }

  /** The journal part of a backup: every configured root in turn. */
  method CollectJournals(roots: seq<seq<Entry>>) returns (r: Result<seq<Entry>, JournalError>)
    ensures Collects(Concatenated(roots), r)
  {
    r := Ok([]);
    var total := 0;
    for a := 0 to |roots|
      invariant r.Ok? && Collects(Concatenated(roots[..a]), r) && total == TotalSize(r.value)
    {
      ScanExtends(roots, a);
      r, total := ScanRoot(r.value, total, roots[a], Concatenated(roots[..a]));
      if r.Err? {
        ProblemsRemain(Concatenated(roots[..a + 1]), Concatenated(roots), r);
        return;
      }
    }
    assert roots[..|roots|] == roots;
  }

  lemma {:induction false} ScanExtends(roots: seq<seq<Entry>>, a: nat)
    requires a < |roots|
    ensures Concatenated(roots[..a]) + roots[a] == Concatenated(roots[..a + 1]) <= Concatenated(roots)
    decreases |roots| - a
  {
    assert roots[..a + 1][..a] == roots[..a];
    if a + 1 < |roots| {
      ScanExtends(roots, a + 1);
    } else {
      assert roots[..a + 1] == roots;
    }
  }

  // ---------------------------------------------------------------- bundles

  const REQUIRED: set<string> := {"database.dump", "app_key", "settings.json"}
  const MAX_KEY_BYTES: nat := 1024
  const MAX_SETTINGS_BYTES: nat := 1024 * 1024

  /** The files are those of a dictionary: no name occurs twice. */
  datatype Manifest = Manifest(formatVersion: int, schema: string, files: seq<Entry>)

  /** An entry that is not a regular file has no digest. */
  datatype Journals = Absent | Unusable | Present(files: map<string, Option<FileDigest>>)

  /** A backup directory: its entries besides manifest.json and journals, its journal
      directory, and whether its key and settings can be read by this version. */
  datatype Directory = Directory(files: map<string, Option<FileDigest>>, journals: Journals, configOk: bool)

  const JOURNALS := "journals/"

  predicate JournalPath(name: string) {
    Q.StartsWith(name, JOURNALS) && JournalName(name[9..])
  }

  function Held(dir: Directory, name: string): Option<FileDigest> {
    if Q.StartsWith(name, JOURNALS) then
      if dir.journals.Present? && name[9..] in dir.journals.files then dir.journals.files[name[9..]] else None
    else if name in dir.files then dir.files[name] else None
  }

  function RootNames(dir: Directory): set<string> {
    dir.files.Keys + {"manifest.json"} + if dir.journals.Absent? then {} else {"journals"}
  }

  ghost function Names(files: seq<Entry>): set<string> {
    set e | e in files :: e.name
  }

  ghost function JournalNames(files: seq<Entry>): set<string> {
    set e | e in files && e.name !in REQUIRED && |e.name| >= 9 :: e.name[9..]
  }

  predicate EntryOk(dir: Directory, e: Entry) {
    && (e.name in REQUIRED
        || (JournalPath(e.name) && e.digest.size <= MAX_JOURNAL_BYTES && !dir.journals.Unusable?))
    && Held(dir, e.name) == Some(e.digest)
  }

  function JournalBytes(files: seq<Entry>): nat {
    if files == [] then 0
    else
      var e := files[|files| - 1];
      JournalBytes(files[..|files| - 1]) + if e.name in REQUIRED then 0 else e.digest.size
  }

  ghost predicate HasJournal(files: seq<Entry>) {
    exists e :: e in files && e.name !in REQUIRED
  }

  ghost predicate SmallEnough(dir: Directory) {
    && Held(dir, "app_key").Some? && Held(dir, "app_key").value.size <= 1024
    && Held(dir, "settings.json").Some? && Held(dir, "settings.json").value.size <= 1_048_576
  }

  ghost predicate AllEntriesOk(dir: Directory, files: seq<Entry>) {
    forall i :: 0 <= i < |files| ==> EntryOk(dir, files[i])
  }

  ghost predicate NothingUndeclared(m: Manifest, dir: Directory) {
    && RootNames(dir) == REQUIRED + {"manifest.json"} + (if HasJournal(m.files) then {"journals"} else {})
    && (dir.journals.Present? ==> dir.journals.files.Keys == JournalNames(m.files))
  }

  /** Every check on a bundle, in any order. */
  ghost predicate Validates(m: Manifest, dir: Directory) {
    && m.formatVersion == 1 && m.schema == "0080_member_setup" && |m.files| <= 10_003
    && REQUIRED <= Names(m.files) && AllEntriesOk(dir, m.files) && JournalBytes(m.files) <= 268_435_456
    && NothingUndeclared(m, dir) && SmallEnough(dir) && dir.configOk
  }

  /** A file of the bundle besides its manifest. */
  ghost predicate Holds(dir: Directory, name: string) {
    || (!Q.StartsWith(name, JOURNALS) && name in dir.files)
    || (Q.StartsWith(name, JOURNALS) && dir.journals.Present? && name[9..] in dir.journals.files)
  }

  lemma JournalPathName(rest: string)
    ensures Q.StartsWith(JOURNALS + rest, JOURNALS) && (JOURNALS + rest)[9..] == rest
    ensures JOURNALS + rest !in REQUIRED
  {
    assert (JOURNALS + rest)[7] == 's' && (JOURNALS + rest)[8] == '/';
  }

  /** A bundle that validates holds exactly the files of its manifest, every one of them
      regular and with the digest that the manifest gives. */
  lemma ValidatedIsExact(m: Manifest, dir: Directory, name: string)
    requires Validates(m, dir) && name != "manifest.json" && name != "journals"
    ensures Holds(dir, name) <==> name in Names(m.files)
    ensures Holds(dir, name) ==> exists e :: e in m.files && e.name == name && Held(dir, name) == Some(e.digest)
  {
    forall e | e in m.files && e.name == name ensures Holds(dir, name) && Held(dir, name) == Some(e.digest) {
      var i :| 0 <= i < |m.files| && m.files[i] == e;
      assert EntryOk(dir, m.files[i]);
    }
    if Holds(dir, name) {
      if Q.StartsWith(name, JOURNALS) {
        DeclaredJournal(m, dir, name);
      } else {
        assert name in RootNames(dir);
      }
    }
  }

  lemma DeclaredJournal(m: Manifest, dir: Directory, name: string)
    requires AllEntriesOk(dir, m.files) && Q.StartsWith(name, JOURNALS) && name[9..] in JournalNames(m.files)
    ensures name in Names(m.files)
  {
    var e :| e in m.files && e.name !in REQUIRED && |e.name| >= 9 && e.name[9..] == name[9..];
    var i :| 0 <= i < |m.files| && m.files[i] == e;
    assert EntryOk(dir, m.files[i]);
    assert e.name[..9] == JOURNALS == name[..9];
    assert e.name == e.name[..9] + e.name[9..] == name[..9] + name[9..] == name;
  }

  lemma NamesGrow(files: seq<Entry>, e: Entry)
    ensures JournalNames(files + [e])
         == JournalNames(files) + if e.name !in REQUIRED && |e.name| >= 9 then {e.name[9..]} else {}
    ensures HasJournal(files + [e]) <==> HasJournal(files) || e.name !in REQUIRED
  {
    assert e in files + [e] && forall x :: x in files + [e] <==> x in files || x == e;
  }

  /** The entries checked so far, the bytes of their journals and the journals' names. */
  ghost predicate Checked(dir: Directory, files: seq<Entry>, bytes: nat, journals: set<string>) {
    && AllEntriesOk(dir, files) && bytes == JournalBytes(files) && journals == JournalNames(files)
    && (journals != {} <==> HasJournal(files))
  }

  lemma CheckedNext(dir: Directory, files: seq<Entry>, bytes: nat, journals: set<string>, e: Entry)
    requires Checked(dir, files, bytes, journals) && EntryOk(dir, e)
    ensures e.name !in REQUIRED ==> |e.name| >= 9
    ensures if e.name in REQUIRED then Checked(dir, files + [e], bytes, journals)
            else Checked(dir, files + [e], bytes + e.digest.size, journals + {e.name[9..]})
  {
    NamesGrow(files, e);
    JournalBytesNext(files, e);
  }

  lemma BadEntry(dir: Directory, files: seq<Entry>, k: nat)
    requires k < |files| && !EntryOk(dir, files[k])
    ensures !AllEntriesOk(dir, files)
  {
  }

  /** The entries that the manifest declares, one after the other. */
  method CheckEntries(m: Manifest, dir: Directory) returns (ok: bool, bytes: nat, journals: set<string>)
    ensures ok <==> AllEntriesOk(dir, m.files)
    ensures ok ==> Checked(dir, m.files, bytes, journals)
  {
    bytes, journals := 0, {};
    for k := 0 to |m.files|
      invariant Checked(dir, m.files[..k], bytes, journals)
    {
      var e := m.files[k];
      if !EntryOk(dir, e) {
        BadEntry(dir, m.files, k);
        return false, bytes, journals;
      }
      CheckedNext(dir, m.files[..k], bytes, journals, e);
      assert m.files[..k + 1] == m.files[..k] + [e];
      if e.name !in REQUIRED {
        bytes := bytes + e.digest.size;
        journals := journals + {e.name[9..]};
      }
    }
    assert m.files[..|m.files|] == m.files;
    ok := true;
  }

  /** The checks in the order in which a bundle is verified. */
  method ValidateBundle(m: Manifest, dir: Directory) returns (ok: bool)
    ensures ok <==> Validates(m, dir)
  {
    if m.formatVersion != 1 || m.schema != SCHEMA || |m.files| > MAX_JOURNALS + 3 {
      return false;
    }
    var names := set e | e in m.files :: e.name;
    if !(REQUIRED <= names) {
      return false;
    }
    var entriesOk, bytes, journals := CheckEntries(m, dir);
    if !entriesOk || bytes > MAX_TOTAL_JOURNAL_BYTES {
      return false;
    }
    if RootNames(dir) != REQUIRED + {"manifest.json"} + (if journals != {} then {"journals"} else {}) {
      return false;
    }
    if journals != {} && dir.journals.Present? && dir.journals.files.Keys != journals {
      return false;
    }
    AbsentJournals(m, dir, journals);
    var key, settings := Held(dir, "app_key"), Held(dir, "settings.json");
    if key.None? || key.value.size > MAX_KEY_BYTES || settings.None? || settings.value.size > MAX_SETTINGS_BYTES {
      return false;
    }
    ok := dir.configOk;
  }

  lemma AbsentJournals(m: Manifest, dir: Directory, journals: set<string>)
    requires AllEntriesOk(dir, m.files)
    requires RootNames(dir) == REQUIRED + {"manifest.json"} + if journals != {} then {"journals"} else {}
    ensures journals == {} ==> dir.journals.Absent?
  {
    assert "journals" in RootNames(dir) <==> journals != {} || "journals" in REQUIRED + {"manifest.json"};
  }

  // ---------------------------------------------------------------- a backup validates itself

  function Declared(journals: seq<Entry>): seq<Entry> {
    seq(|journals|, i requires 0 <= i < |journals| => Entry(JOURNALS + journals[i].name, journals[i].digest))
  }

  /** The three files that every bundle holds. */
  function Core(dump: FileDigest, key: FileDigest, settings: FileDigest): seq<Entry> {
    [Entry("database.dump", dump), Entry("app_key", key), Entry("settings.json", settings)]
  }

  function JournalFiles(journals: seq<Entry>): map<string, Option<FileDigest>> {
    if journals == [] then map[]
    else
      var e := journals[|journals| - 1];
      JournalFiles(journals[..|journals| - 1])[e.name := Some(e.digest)]
  }

  ghost predicate DistinctNames(journals: seq<Entry>) {
    forall i, j :: 0 <= i < j < |journals| ==> journals[i].name != journals[j].name
  }

  lemma {:induction false} JournalFilesFacts(journals: seq<Entry>)
    requires DistinctNames(journals)
    ensures forall i :: 0 <= i < |journals| ==>
              && journals[i].name in JournalFiles(journals)
              && JournalFiles(journals)[journals[i].name] == Some(journals[i].digest)
    ensures forall name :: name in JournalFiles(journals) ==>
              exists i :: 0 <= i < |journals| && journals[i].name == name
  {
    if journals != [] {
      var init := journals[..|journals| - 1];
      JournalFilesFacts(init);
      assert forall i :: 0 <= i < |init| ==> init[i] == journals[i];
    }
  }

  /** What a backup with these journals leaves in its directory. */
  function Written(core: seq<Entry>, journals: seq<Entry>, configOk: bool): Directory
    requires |core| == 3
  {
    Directory(
      map[core[0].name := Some(core[0].digest), core[1].name := Some(core[1].digest),
          core[2].name := Some(core[2].digest)],
      if journals == [] then Absent else Present(JournalFiles(journals)), configOk)
  }

  lemma {:induction false} DeclaredBytes(core: seq<Entry>, journals: seq<Entry>)
    requires JournalBytes(core) == 0
    ensures JournalBytes(core + Declared(journals)) == TotalSize(journals)
    decreases |journals|
  {
    if journals == [] {
      assert core + Declared(journals) == core;
    } else {
      var init, e := journals[..|journals| - 1], journals[|journals| - 1];
      DeclaredBytes(core, init);
      JournalPathName(e.name);
      var all := core + Declared(journals);
      assert all[..|all| - 1] == core + Declared(init);
    }
  }

  lemma JournalBytesNext(files: seq<Entry>, e: Entry)
    ensures JournalBytes(files + [e]) == JournalBytes(files) + if e.name in REQUIRED then 0 else e.digest.size
  {
    assert (files + [e])[..|files|] == files;
  }

  lemma CoreBytes(dump: FileDigest, key: FileDigest, settings: FileDigest)
    ensures JournalBytes(Core(dump, key, settings)) == 0
  {
    var core := Core(dump, key, settings);
    JournalBytesNext([], core[0]);
    JournalBytesNext([core[0]], core[1]);
    JournalBytesNext([core[0], core[1]], core[2]);
    assert [] + [core[0]] == [core[0]] && [core[0]] + [core[1]] == [core[0], core[1]];
    assert [core[0], core[1]] + [core[2]] == core;
  }

  /** A usable set of journals: as the scan of the roots leaves them. */
  ghost predicate Collected(journals: seq<Entry>) {
    DistinctNames(journals) && WithinBudget(journals)
    && forall i :: 0 <= i < |journals| ==> JournalName(journals[i].name)
  }

  lemma CoreIsNoJournal(name: string)
    requires name in REQUIRED
    ensures !Q.StartsWith(name, JOURNALS)
  {
    assert name[0] != JOURNALS[0];
  }

  lemma CoreHeld(journals: seq<Entry>, dump: FileDigest, key: FileDigest, settings: FileDigest, configOk: bool)
    ensures var dir := Written(Core(dump, key, settings), journals, configOk);
            && dir.files.Keys == REQUIRED && Held(dir, "database.dump") == Some(dump)
            && Held(dir, "app_key") == Some(key) && Held(dir, "settings.json") == Some(settings)
  {
    CoreIsNoJournal("database.dump");
    CoreIsNoJournal("app_key");
    CoreIsNoJournal("settings.json");
  }

  lemma JournalHeld(core: seq<Entry>, journals: seq<Entry>, configOk: bool, i: nat)
    requires |core| == 3 && Collected(journals) && i < |journals|
    ensures EntryOk(Written(core, journals, configOk), Entry(JOURNALS + journals[i].name, journals[i].digest))
  {
    JournalFilesFacts(journals);
    JournalPathName(journals[i].name);
  }

  lemma CollectedEntries(journals: seq<Entry>, dump: FileDigest, key: FileDigest, settings: FileDigest, configOk: bool)
    requires Collected(journals)
    ensures AllEntriesOk(Written(Core(dump, key, settings), journals, configOk),
                         Core(dump, key, settings) + Declared(journals))
  {
    var core := Core(dump, key, settings);
    var dir, all := Written(core, journals, configOk), core + Declared(journals);
    CoreHeld(journals, dump, key, settings, configOk);
    forall i | 0 <= i < |all| ensures EntryOk(dir, all[i]) {
      if i >= 3 {
        JournalHeld(core, journals, configOk, i - 3);
        assert all[i] == Entry(JOURNALS + journals[i - 3].name, journals[i - 3].digest);
      } else {
        assert all[i] == core[i];
      }
    }
  }

  lemma DeclaredAt(core: seq<Entry>, journals: seq<Entry>, i: nat)
    requires |core| == 3 && i < |journals|
    ensures var e := (core + Declared(journals))[i + 3];
            e in core + Declared(journals) && e.name !in REQUIRED && |e.name| >= 9 && e.name[9..] == journals[i].name
  {
    JournalPathName(journals[i].name);
  }

  lemma DeclaredIsJournal(core: seq<Entry>, journals: seq<Entry>, e: Entry) returns (i: nat)
    requires |core| == 3 && (forall k :: 0 <= k < 3 ==> core[k].name in REQUIRED)
    requires e in core + Declared(journals) && e.name !in REQUIRED
    ensures i < |journals| && (|e.name| >= 9 ==> e.name[9..] == journals[i].name)
  {
    var k :| 0 <= k < |core + Declared(journals)| && (core + Declared(journals))[k] == e;
    i := k - 3;
    JournalPathName(journals[i].name);
  }

  lemma NamesCovered(core: seq<Entry>, journals: seq<Entry>, name: string)
    requires |core| == 3 && DistinctNames(journals) && name in JournalFiles(journals)
    ensures name in JournalNames(core + Declared(journals))
  {
    JournalFilesFacts(journals);
    var i :| 0 <= i < |journals| && journals[i].name == name;
    DeclaredAt(core, journals, i);
  }

  lemma NamesWithin(core: seq<Entry>, journals: seq<Entry>, name: string)
    requires |core| == 3 && (forall k :: 0 <= k < 3 ==> core[k].name in REQUIRED)
    requires DistinctNames(journals) && name in JournalNames(core + Declared(journals))
    ensures name in JournalFiles(journals)
  {
    JournalFilesFacts(journals);
    var e :| e in core + Declared(journals) && e.name !in REQUIRED && |e.name| >= 9 && e.name[9..] == name;
    var i := DeclaredIsJournal(core, journals, e);
  }

  lemma JournalDeclared(core: seq<Entry>, journals: seq<Entry>)
    requires |core| == 3 && forall k :: 0 <= k < 3 ==> core[k].name in REQUIRED
    ensures HasJournal(core + Declared(journals)) <==> journals != []
  {
    if journals != [] {
      DeclaredAt(core, journals, 0);
    }
    forall e | e in core + Declared(journals) && e.name !in REQUIRED ensures journals != [] {
      var i := DeclaredIsJournal(core, journals, e);
    }
  }

  lemma CollectedNames(journals: seq<Entry>, dump: FileDigest, key: FileDigest, settings: FileDigest)
    requires Collected(journals)
    ensures var all := Core(dump, key, settings) + Declared(journals);
            JournalNames(all) == JournalFiles(journals).Keys && (HasJournal(all) <==> journals != [])
  {
    var core := Core(dump, key, settings);
    forall name | name in JournalFiles(journals) ensures name in JournalNames(core + Declared(journals)) {
      NamesCovered(core, journals, name);
    }
    forall name | name in JournalNames(core + Declared(journals)) ensures name in JournalFiles(journals) {
      NamesWithin(core, journals, name);
    }
    JournalDeclared(core, journals);
  }

  lemma CoreDeclared(journals: seq<Entry>, dump: FileDigest, key: FileDigest, settings: FileDigest)
    ensures REQUIRED <= Names(Core(dump, key, settings) + Declared(journals))
  {
    var core := Core(dump, key, settings);
    var all := core + Declared(journals);
    assert all[0] == core[0] && all[1] == core[1] && all[2] == core[2];
  }

  /** A backup is verified by its own check, which can only object to the size of the key
      or the settings, or to settings that this version does not accept; and no journal
      of the roots is lost. */
  method BackupThenValidate(
      roots: seq<seq<Entry>>, dump: FileDigest, key: FileDigest, settings: FileDigest, configOk: bool)
    returns (r: Result<(Manifest, Directory), JournalError>, ok: bool)
    ensures r.Ok? ==>
              && ok == (key.size <= 1024 && settings.size <= 1_048_576 && configOk)
              && Held(r.value.1, "database.dump") == Some(dump) && Held(r.value.1, "app_key") == Some(key)
              && Held(r.value.1, "settings.json") == Some(settings)
              && (forall e :: e in Concatenated(roots) && IsJson(e.name) ==>
                    Held(r.value.1, "journals/" + e.name) == Some(e.digest))
    ensures r.Err? ==> Collects(Concatenated(roots), Err(r.error))
  {
    ok := false;
    var journals := CollectJournals(roots);
    if journals.Err? {
      return Err(journals.error), ok;
    }
    var core := Core(dump, key, settings);
    var m := Manifest(1, SCHEMA, core + Declared(journals.value));
    var dir := Written(core, journals.value, configOk);
    ScanCollects(Concatenated(roots), journals.value);
    BackupValidates(journals.value, dump, key, settings, configOk);
    ok := ValidateBundle(m, dir);
    CoreHeld(journals.value, dump, key, settings, configOk);
    forall e | e in Concatenated(roots) && IsJson(e.name) ensures Held(dir, JOURNALS + e.name) == Some(e.digest) {
      JournalKept(Concatenated(roots), journals.value, core, configOk, e);
    }
    r := Ok((m, dir));
  }

  lemma ScanCollects(all: seq<Entry>, journals: seq<Entry>)
    requires Collects(all, Ok(journals))
    ensures Collected(journals)
  {
    UnionIsExact(all);
    forall i | 0 <= i < |journals| ensures JournalName(journals[i].name) {
      assert journals[i] in Union(all);
    }
  }

  lemma JournalKept(all: seq<Entry>, journals: seq<Entry>, core: seq<Entry>, configOk: bool, e: Entry)
    requires Collects(all, Ok(journals)) && |core| == 3 && e in all && IsJson(e.name)
    ensures Held(Written(core, journals, configOk), JOURNALS + e.name) == Some(e.digest)
  {
    UnionIsExact(all);
    ScanCollects(all, journals);
    JournalFilesFacts(journals);
    JournalPathName(e.name);
    var i :| 0 <= i < |journals| && journals[i] == e;
  }

  lemma BackupValidates(journals: seq<Entry>, dump: FileDigest, key: FileDigest, settings: FileDigest, configOk: bool)
    requires Collected(journals)
    ensures Validates(Manifest(1, SCHEMA, Core(dump, key, settings) + Declared(journals)),
                      Written(Core(dump, key, settings), journals, configOk))
            <==> key.size <= 1024 && settings.size <= 1_048_576 && configOk
  {
    var core := Core(dump, key, settings);
    CollectedEntries(journals, dump, key, settings, configOk);
    CollectedNames(journals, dump, key, settings);
    CoreDeclared(journals, dump, key, settings);
    CoreBytes(dump, key, settings);
    DeclaredBytes(core, journals);
    CoreHeld(journals, dump, key, settings, configOk);
  }

  // ---------------------------------------------------------------- names and entries, spelled out

  ghost predicate HexDigits(text: string, count: nat) {
    |text| == count && forall i :: 0 <= i < |text| ==> text[i] in "0123456789abcdef"
  }

  /** Five groups of lower-case hexadecimal digits. */
  ghost predicate UuidOf(s: string, a: string, b: string, c: string, d: string, e: string) {
    && HexDigits(a, 8) && HexDigits(b, 4) && HexDigits(c, 4) && HexDigits(d, 4) && HexDigits(e, 12)
    && s == a + "-" + b + "-" + c + "-" + d + "-" + e
  }

  lemma HexSpelled(ch: char)
    ensures IsLowerHex(ch) <==> ch in "0123456789abcdef"
  {
    var hex := "0123456789abcdef";
    if IsLowerHex(ch) {
      assert ch == hex[if ch <= '9' then ch as int - '0' as int else ch as int - 'a' as int + 10];
    }
  }

  lemma UuidHasGroups(s: string)
    requires CanonicalUuid(s)
    ensures UuidOf(s, s[..8], s[9..13], s[14..18], s[19..23], s[24..])
  {
    forall ch ensures IsLowerHex(ch) <==> ch in "0123456789abcdef" {
      HexSpelled(ch);
    }
    assert s == s[..8] + [s[8]] + s[9..13] + [s[13]] + s[14..18] + [s[18]] + s[19..23] + [s[23]] + s[24..];
  }

  lemma GroupsAreUuid(s: string, a: string, b: string, c: string, d: string, e: string)
    requires UuidOf(s, a, b, c, d, e)
    ensures CanonicalUuid(s)
  {
    forall i | 0 <= i < 36 ensures if i in {8, 13, 18, 23} then s[i] == '-' else IsLowerHex(s[i]) {
      HexSpelled(s[i]);
    }
  }

  lemma UuidSpelled(s: string)
    ensures CanonicalUuid(s) <==> exists a, b, c, d, e :: UuidOf(s, a, b, c, d, e)
  {
    if CanonicalUuid(s) {
      UuidHasGroups(s);
    }
    if a, b, c, d, e :| UuidOf(s, a, b, c, d, e) {
      GroupsAreUuid(s, a, b, c, d, e);
    }
  }

  /** Journals are named after a canonical UUID, with or without "combine-" before it. */
  lemma JournalSpelled(name: string)
    ensures JournalName(name) <==>
            exists u :: CanonicalUuid(u) && (name == u + ".json" || name == "combine-" + u + ".json")
    ensures IsJson(name) <==> exists stem :: name == stem + ".json"
  {
    if IsJson(name) {
      assert name == name[..|name| - 5] + ".json";
    }
    if JournalName(name) {
      JournalHasUuid(name);
    }
    if u :| CanonicalUuid(u) && (name == u + ".json" || name == "combine-" + u + ".json") {
      UuidIsJournal(name, u);
    }
  }

  lemma JournalHasUuid(name: string)
    requires JournalName(name)
    ensures exists u :: CanonicalUuid(u) && (name == u + ".json" || name == "combine-" + u + ".json")
  {
    var bare := if Q.StartsWith(name, "combine-") then name[8..] else name;
    var u := bare[..|bare| - 5];
    assert bare == u + name[|name| - 5..];
    if Q.StartsWith(name, "combine-") {
      assert name == name[..8] + bare && name[..8] == "combine-";
      assert name == "combine-" + u + ".json";
    } else {
      assert name == u + ".json";
    }
  }

  lemma UuidIsJournal(name: string, u: string)
    requires CanonicalUuid(u) && (name == u + ".json" || name == "combine-" + u + ".json")
    ensures JournalName(name)
  {
    if name == u + ".json" {
      assert name[1] == u[1] && IsLowerHex(u[1]) && "combine-"[1] == 'o';
      assert !Q.StartsWith(name, "combine-");
      assert name[..|name| - 5] == u;
    } else {
      assert name[..8] == "combine-" && name[8..] == u + ".json";
      assert (u + ".json")[..36] == u;
    }
  }

  /** The file in the bundle has this digest. */
  ghost predicate DeclaredAs(dir: Directory, e: Entry, rest: string) {
    && e.name == "journals/" + rest && JournalName(rest) && e.digest.size <= 4_194_304
    && dir.journals.Present? && rest in dir.journals.files && dir.journals.files[rest] == Some(e.digest)
  }

  /** A permitted entry is one of the three files or a journal of permitted size, and what
      the bundle holds under its name is a regular file with its digest. */
  lemma EntrySpelled(dir: Directory, e: Entry)
    ensures EntryOk(dir, e) <==>
            || ((e.name == "database.dump" || e.name == "app_key" || e.name == "settings.json")
                && e.name in dir.files && dir.files[e.name] == Some(e.digest))
            || exists rest :: DeclaredAs(dir, e, rest)
  {
    if e.name in REQUIRED {
      CoreIsNoJournal(e.name);
    }
    if EntryOk(dir, e) && e.name !in REQUIRED {
      assert e.name == "journals/" + e.name[9..];
      assert DeclaredAs(dir, e, e.name[9..]);
    }
    if rest :| DeclaredAs(dir, e, rest) {
      JournalPathName(rest);
    }
  }

  ghost predicate IsJournal(e: Entry, rest: string) {
    e.name == "journals/" + rest
  }

  /** Names, sizes and counts of a bundle's files. */
  lemma BundleSpelled(m: Manifest, dir: Directory, e: Entry)
    ensures TotalSize([]) == 0 && JournalBytes([]) == 0
    ensures JournalBytes(m.files + [e]) ==
            JournalBytes(m.files)
            + if e.name == "database.dump" || e.name == "app_key" || e.name == "settings.json" then 0 else e.digest.size
    ensures forall name :: name in RootNames(dir) <==>
              name in dir.files || name == "manifest.json" || (name == "journals" && !dir.journals.Absent?)
    ensures AllEntriesOk(dir, m.files) ==>
              forall rest :: rest in JournalNames(m.files) <==> exists f :: f in m.files && IsJournal(f, rest)
  {
    JournalBytesNext(m.files, e);
    if AllEntriesOk(dir, m.files) {
      forall rest ensures rest in JournalNames(m.files) <==> exists f :: f in m.files && IsJournal(f, rest) {
        JournalNamesSpelled(m, dir, rest);
      }
    }
  }

  lemma JournalNamesSpelled(m: Manifest, dir: Directory, rest: string)
    requires AllEntriesOk(dir, m.files)
    ensures rest in JournalNames(m.files) <==> exists f :: f in m.files && IsJournal(f, rest)
  {
    if f :| f in m.files && IsJournal(f, rest) {
      JournalPathName(rest);
    }
    if rest in JournalNames(m.files) {
      var f :| f in m.files && f.name !in REQUIRED && |f.name| >= 9 && f.name[9..] == rest;
      var i :| 0 <= i < |m.files| && m.files[i] == f;
      assert EntryOk(dir, m.files[i]);
      assert f.name == "journals/" + rest;
    }
  }
}
