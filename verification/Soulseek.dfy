/** Soulseek folders (services/app/adapters/slskd.py): grouping peer replies into
    folders with distinct names, and deciding when a batch of transfers completed. */
module Soulseek {
  import opened Outcomes

  datatype File = File(filename: string, size: nat)

  // ---------------------------------------------------------------- names

  function Slashes(text: string): string {
    seq(|text|, i requires 0 <= i < |text| => if text[i] == '\\' then '/' else text[i])
  }

  /** Separators of either kind become "/", and nothing else changes (see PlainSlashes). */
  lemma SlashesJoin(a: string, sep: char, b: string)
    requires sep == '/' || sep == '\\'
    ensures Slashes(a + [sep] + b) == Slashes(a) + "/" + Slashes(b)
  {
  }

  function TrimSlashes(text: string): string {
    if text == [] || text[|text| - 1] != '/' then text else TrimSlashes(text[..|text| - 1])
  }

  function AfterLastSlash(text: string): string {
    if text == [] || text[|text| - 1] == '/' then []
    else AfterLastSlash(text[..|text| - 1]) + [text[|text| - 1]]
  }

  function LeafName(path: string): string {
    AfterLastSlash(TrimSlashes(Slashes(path)))
  }

  lemma SlashesTwice(text: string)
    ensures Slashes(Slashes(text)) == Slashes(text)
    ensures LeafName(Slashes(text)) == LeafName(text)
  {
    assert Slashes(Slashes(text)) == Slashes(text);
  }

  /** A name without separators. */
  ghost predicate Plain(name: string) {
    name != "" && forall i :: 0 <= i < |name| ==> name[i] != '/' && name[i] != '\\'
  }

  /** The last component of the path is `name`, whichever separators the peer uses. */
  ghost predicate EndsIn(path: string, name: string) {
    Plain(name) && (path == name || exists dir, sep :: (sep == '/' || sep == '\\') && path == dir + [sep] + name)
  }

  lemma {:induction false} AfterPlain(head: string, name: string)
    requires forall i :: 0 <= i < |name| ==> name[i] != '/'
    requires head == "" || head[|head| - 1] == '/'
    ensures AfterLastSlash(head + name) == name
    decreases |name|
  {
    if name == "" {
      assert head + name == head;
    } else {
      AfterPlain(head, name[..|name| - 1]);
      assert (head + name)[..|head + name| - 1] == head + name[..|name| - 1];
      assert name == name[..|name| - 1] + [name[|name| - 1]];
    }
  }

  lemma PlainSlashes(name: string)
    requires Plain(name)
    ensures Slashes(name) == name
  {
  }

  /** The leaf name is the last component. */
  lemma LeafSpelled(path: string, name: string)
    requires EndsIn(path, name)
    ensures LeafName(path) == name
  {
    PlainSlashes(name);
    if path == name {
      assert [] + name == name;
      AfterPlain([], name);
    } else {
      var dir, sep :| (sep == '/' || sep == '\\') && path == dir + [sep] + name;
      assert Slashes(path) == (Slashes(dir) + "/") + name;
      AfterPlain(Slashes(dir) + "/", name);
    }
  }

  /** Trailing separators change nothing. */
  lemma TrailingIgnored(path: string, sep: char)
    requires sep == '/' || sep == '\\'
    ensures LeafName(path + [sep]) == LeafName(path)
  {
    assert Slashes(path + [sep]) == Slashes(path) + "/";
    assert (Slashes(path) + "/")[..|Slashes(path)|] == Slashes(path);
  }

  // ---------------------------------------------------------------- folders

  ghost predicate DistinctNames(folder: seq<File>) {
    forall i, j :: 0 <= i < j < |folder| ==> Slashes(folder[i].filename) != Slashes(folder[j].filename)
  }

  ghost predicate Covers(folder: seq<File>, o: File) {
    exists i :: 0 <= i < |folder| && Slashes(folder[i].filename) == Slashes(o.filename) && o.size <= folder[i].size
  }

  /** `offered` are the files a peer lists for one folder: nothing is invented, and
      every name is kept with its largest size. */
  ghost predicate Represents(folder: seq<File>, offered: seq<File>) {
    && (forall i :: 0 <= i < |folder| ==> folder[i] in offered)
    && (forall k {:trigger Covers(folder, offered[k])} :: 0 <= k < |offered| ==> Covers(folder, offered[k]))
  }

  /** Names kept in place, with no size lowered, still cover what was covered. */
  lemma CoverageKept(folder: seq<File>, next: seq<File>, offered: seq<File>)
    requires forall k {:trigger Covers(folder, offered[k])} :: 0 <= k < |offered| ==> Covers(folder, offered[k])
    requires |folder| <= |next|
    requires forall j :: 0 <= j < |folder| ==>
               Slashes(next[j].filename) == Slashes(folder[j].filename) && folder[j].size <= next[j].size
    ensures forall k {:trigger Covers(next, offered[k])} :: 0 <= k < |offered| ==> Covers(next, offered[k])
  {
    forall k | 0 <= k < |offered| ensures Covers(next, offered[k]) {
      assert Covers(folder, offered[k]);
      var j :| 0 <= j < |folder| && Slashes(folder[j].filename) == Slashes(offered[k].filename)
          && offered[k].size <= folder[j].size;
      assert Slashes(next[j].filename) == Slashes(offered[k].filename);
    }
  }

  lemma ReplaceKeeps(folder: seq<File>, offered: seq<File>, i: nat, item: File)
    requires DistinctNames(folder) && Represents(folder, offered)
    requires i < |folder| && Slashes(folder[i].filename) == Slashes(item.filename)
    ensures var next := if item.size > folder[i].size then folder[i := item] else folder;
            DistinctNames(next) && Represents(next, offered + [item])
  {
    var next := if item.size > folder[i].size then folder[i := item] else folder;
    assert Slashes(next[i].filename) == Slashes(item.filename) && item.size <= next[i].size;
    assert Covers(next, item);
    CoverageKept(folder, next, offered);
  }

  lemma AppendKeeps(folder: seq<File>, offered: seq<File>, item: File)
    requires DistinctNames(folder) && Represents(folder, offered)
    requires forall i :: 0 <= i < |folder| ==> Slashes(folder[i].filename) != Slashes(item.filename)
    ensures DistinctNames(folder + [item]) && Represents(folder + [item], offered + [item])
  {
    var next := folder + [item];
    assert next[|folder|] == item && forall j :: 0 <= j < |folder| ==> next[j] == folder[j];
    assert Covers(next, item);
    CoverageKept(folder, next, offered);
  }

  /** One more offer in a folder: a repeated name keeps the largest one, in the peer's
      spelling. */
  method AddToFolder(folder: seq<File>, item: File, ghost offered: seq<File>) returns (next: seq<File>)
    requires DistinctNames(folder) && Represents(folder, offered)
    ensures DistinctNames(next) && Represents(next, offered + [item])
    ensures next != []
  {
    if i :| 0 <= i < |folder| && Slashes(folder[i].filename) == Slashes(item.filename) {
      ReplaceKeeps(folder, offered, i, item);
      next := if item.size > folder[i].size then folder[i := item] else folder;
    } else {
      AppendKeeps(folder, offered, item);
      next := folder + [item];
    }
  }

  // ---------------------------------------------------------------- responses

  const MAX_RESPONSES := 200
  const MAX_LISTED := 500

  /** One listed file of a response; the size is absent when it is not a count. */
  datatype Item = Item(filename: string, size: Option<nat>)

  /** A peer's answer; the name has been stripped. */
  datatype Response = Response(username: string, items: seq<Item>)

  /** A shared folder of a peer. */
  datatype Folder = Folder(username: string, directory: string)

  datatype Offer = Offer(folder: Folder, file: File)

  function BeforeLastSlash(text: string): string {
    if text == [] then []
    else if text[|text| - 1] == '/' then text[..|text| - 1]
    else BeforeLastSlash(text[..|text| - 1])
  }

  function Directory(filename: string): string {
    BeforeLastSlash(Slashes(filename))
  }

  lemma {:induction false} BeforePlain(head: string, name: string)
    requires forall i :: 0 <= i < |name| ==> name[i] != '/'
    ensures BeforeLastSlash(head + "/" + name) == head && BeforeLastSlash(name) == ""
    decreases |name|
  {
    if name == "" {
      assert head + "/" + name == head + "/" && (head + "/")[..|head|] == head;
    } else {
      var path, init := head + "/" + name, name[..|name| - 1];
      BeforePlain(head, init);
      assert path[..|path| - 1] == head + "/" + init;
    }
  }

  /** The shared directory is all before the last component, with one kind of separator. */
  lemma DirectorySpelled(dir: string, sep: char, name: string)
    requires Plain(name) && (sep == '/' || sep == '\\')
    ensures Directory(dir + [sep] + name) == Slashes(dir) && Directory(name) == ""
  {
    PlainSlashes(name);
    SlashesJoin(dir, sep, name);
    BeforePlain(Slashes(dir), name);
  }

  function Limit<T>(items: seq<T>, n: nat): seq<T> {
    if |items| <= n then items else items[..n]
  }

  /** The directories that the length limit cuts: a usable file lies beyond it. */
  function CutDirectories(r: Response, media: string -> bool): set<string> {
    set i | MAX_LISTED <= i < |r.items| && media(r.items[i].filename) && r.items[i].size.Some?
      :: Directory(r.items[i].filename)
  }

  predicate Usable(item: Item, media: string -> bool) {
    item.filename != "" && item.size.Some? && media(item.filename)
  }

  /** What the `k`th file of a response contributes. */
  function OfferAt(r: Response, media: string -> bool, k: nat): seq<Offer>
    requires k < |r.items|
  {
    var item := r.items[k];
    var directory := Directory(item.filename);
    if !Usable(item, media) || directory in CutDirectories(r, media) then []
    else [Offer(Folder(r.username, directory), File(item.filename, item.size.value))]
  }

  function OffersOf(r: Response, media: string -> bool, n: nat): seq<Offer>
    requires n <= |r.items|
  {
    if n == 0 then [] else OffersOf(r, media, n - 1) + OfferAt(r, media, n - 1)
  }

  /** All that a response offers; a nameless peer offers nothing. */
  function ResponseOffers(r: Response, media: string -> bool): seq<Offer> {
    if r.username == "" then [] else OffersOf(r, media, |Limit(r.items, MAX_LISTED)|)
  }

  function Parts(responses: seq<Response>, media: string -> bool): (parts: seq<seq<Offer>>)
    ensures |parts| == |responses|
  {
    seq(|responses|, i requires 0 <= i < |responses| => ResponseOffers(responses[i], media))
  }

  function Flatten(parts: seq<seq<Offer>>): seq<Offer> {
    if parts == [] then [] else Flatten(parts[..|parts| - 1]) + parts[|parts| - 1]
  }

  /** All that the responses within the limit offer, in order. */
  function Offers(responses: seq<Response>, media: string -> bool): seq<Offer> {
    Flatten(Parts(Limit(responses, MAX_RESPONSES), media))
  }

  function Within(offers: seq<Offer>, folder: Folder): seq<File> {
    if offers == [] then []
    else
      var last := offers[|offers| - 1];
      Within(offers[..|offers| - 1], folder) + if last.folder == folder then [last.file] else []
  }

  /** Every folder with an offer, and nothing else, is kept as its offers demand. */
  ghost predicate Groups(grouped: map<Folder, seq<File>>, offers: seq<Offer>) {
    forall folder :: GroupsAt(grouped, offers, folder)
  }

  ghost predicate GroupsAt(grouped: map<Folder, seq<File>>, offers: seq<Offer>, folder: Folder) {
    && (folder in grouped <==> Within(offers, folder) != [])
    && (folder in grouped ==>
          DistinctNames(grouped[folder]) && Represents(grouped[folder], Within(offers, folder)))
  }

  lemma WithinNext(offers: seq<Offer>, offer: Offer, folder: Folder)
    ensures Within(offers + [offer], folder)
         == if offer.folder == folder then Within(offers, folder) + [offer.file] else Within(offers, folder)
  {
    assert (offers + [offer])[..|offers|] == offers;
  }

  /** One listed file joins its folder, which begins with it if it is the first. */
  method AddOffer(grouped: map<Folder, seq<File>>, offer: Offer, ghost offers: seq<Offer>)
    returns (next: map<Folder, seq<File>>)
    requires Groups(grouped, offers)
    ensures Groups(next, offers + [offer])
  {
    ghost var before := Within(offers, offer.folder);
    assert GroupsAt(grouped, offers, offer.folder);
    var folder := if offer.folder in grouped then grouped[offer.folder] else [];
    var files := AddToFolder(folder, offer.file, before);
    next := grouped[offer.folder := files];
    forall other ensures GroupsAt(next, offers + [offer], other) {
      assert GroupsAt(grouped, offers, other);
      WithinNext(offers, offer, other);
    }
  }

  /** The listed files of one response. */
  method AddResponse(
      grouped: map<Folder, seq<File>>, r: Response, media: string -> bool, ghost offers: seq<Offer>)
    returns (next: map<Folder, seq<File>>)
    requires Groups(grouped, offers)
    ensures Groups(next, offers + OffersOf(r, media, |Limit(r.items, MAX_LISTED)|))
  {
    next := grouped;
    var cut := CutDirectories(r, media);
    assert offers + [] == offers;
    for k := 0 to |Limit(r.items, MAX_LISTED)|
      invariant Groups(next, offers + OffersOf(r, media, k))
    {
      var item := r.items[k];
      ghost var seen := offers + OffersOf(r, media, k);
      assert seen + OfferAt(r, media, k) == offers + OffersOf(r, media, k + 1);
      if !Usable(item, media) || Directory(item.filename) in cut {
        assert seen + [] == seen;
        continue;
      }
      var folder := Folder(r.username, Directory(item.filename));
      next := AddOffer(next, Offer(folder, File(item.filename, item.size.value)), seen);
    }
  }

  lemma FlattenNext(parts: seq<seq<Offer>>, n: nat)
    requires n < |parts|
    ensures Flatten(parts[..n + 1]) == Flatten(parts[..n]) + parts[n]
  {
    assert parts[..n + 1][..n] == parts[..n];
  }

  /** One list of files for each shared folder of each peer. */
  method GroupResponses(responses: seq<Response>, media: string -> bool) returns (grouped: map<Folder, seq<File>>)
    ensures Groups(grouped, Offers(responses, media))
  {
    grouped := map[];
    ghost var parts := Parts(Limit(responses, MAX_RESPONSES), media);
    for n := 0 to |Limit(responses, MAX_RESPONSES)|
      invariant Groups(grouped, Flatten(parts[..n]))
    {
      var r := responses[n];
      FlattenNext(parts, n);
      if r.username == "" {
        assert Flatten(parts[..n]) + [] == Flatten(parts[..n]);
        continue;
      }
      grouped := AddResponse(grouped, r, media, Flatten(parts[..n]));
    }
    assert parts[..|parts|] == parts;
  }

  lemma {:induction false} InFlatten(parts: seq<seq<Offer>>, offer: Offer) returns (i: nat)
    requires offer in Flatten(parts)
    ensures i < |parts| && offer in parts[i]
  {
    i := |parts| - 1;
    if offer !in parts[i] {
      i := InFlatten(parts[..|parts| - 1], offer);
    }
  }

  /** No file of a cut folder is offered, and every offer is a usable listed file under
      its own peer and directory. */
  lemma OffersAreListed(responses: seq<Response>, media: string -> bool, offer: Offer) returns (i: nat)
    requires offer in Offers(responses, media)
    ensures i < |responses| && i < 200 && Lists(responses[i], media, offer)
  {
    i := InFlatten(Parts(Limit(responses, MAX_RESPONSES), media), offer);
    OffersListed(responses[i], media, |Limit(responses[i].items, MAX_LISTED)|, offer);
  }

  ghost predicate Lists(r: Response, media: string -> bool, offer: Offer) {
    r.username != "" && exists k :: IsListed(r, media, k, offer)
  }

  ghost predicate IsListed(r: Response, media: string -> bool, k: nat, offer: Offer) {
    && k < |r.items| && k < 500 && Usable(r.items[k], media)
    && offer.file == File(r.items[k].filename, r.items[k].size.value)
    && offer.folder == Folder(r.username, Directory(r.items[k].filename))
    && forall j :: 500 <= j < |r.items| && media(r.items[j].filename) && r.items[j].size.Some? ==>
         Directory(r.items[j].filename) != offer.folder.directory
  }

  lemma {:induction false} OffersListed(r: Response, media: string -> bool, n: nat, offer: Offer)
    requires n <= |r.items| && n <= MAX_LISTED && offer in OffersOf(r, media, n)
    ensures exists k :: IsListed(r, media, k, offer)
  {
    if offer in OffersOf(r, media, n - 1) {
      OffersListed(r, media, n - 1, offer);
    } else {
      assert IsListed(r, media, n - 1, offer);
    }
  }

  lemma {:induction false} OffersKept(r: Response, media: string -> bool, n: nat, k: nat)
    requires k < n <= |r.items|
    ensures forall offer :: offer in OfferAt(r, media, k) ==> offer in OffersOf(r, media, n)
  {
    if k < n - 1 {
      OffersKept(r, media, n - 1, k);
    }
  }

  lemma {:induction false} FlattenKeeps(parts: seq<seq<Offer>>, i: nat, offer: Offer)
    requires i < |parts| && offer in parts[i]
    ensures offer in Flatten(parts)
  {
    if i < |parts| - 1 {
      FlattenKeeps(parts[..|parts| - 1], i, offer);
    }
  }

  /** Every named peer's usable file within the limits is offered under its directory,
      unless a usable file beyond the limit has the same directory. */
  lemma ListedIsOffered(responses: seq<Response>, media: string -> bool, i: nat, k: nat)
    requires i < |responses| && i < 200 && responses[i].username != ""
    requires k < |responses[i].items| && k < 500
    requires var item := responses[i].items[k];
             item.filename != "" && item.size.Some? && media(item.filename)
    requires forall j :: 500 <= j < |responses[i].items| && media(responses[i].items[j].filename)
                         && responses[i].items[j].size.Some? ==>
               Directory(responses[i].items[j].filename) != Directory(responses[i].items[k].filename)
    ensures var item := responses[i].items[k];
            Offer(Folder(responses[i].username, Directory(item.filename)), File(item.filename, item.size.value))
            in Offers(responses, media)
  {
    var r := responses[i];
    var item := r.items[k];
    var offer := Offer(Folder(r.username, Directory(item.filename)), File(item.filename, item.size.value));
    assert offer in OfferAt(r, media, k) by {
      assert OfferAt(r, media, k) == [offer];
    }
    OffersKept(r, media, |Limit(r.items, MAX_LISTED)|, k);
    var parts := Parts(Limit(responses, MAX_RESPONSES), media);
    assert parts[i] == ResponseOffers(r, media);
    FlattenKeeps(parts, i, offer);
  }

  // ---------------------------------------------------------------- matching

  /** A transfer the service reports. `flags` are the words of its state. */
  datatype Transfer = Transfer(filename: string, size: Option<nat>, flags: set<string>)

  const COMPLETE: set<string> := {"succeeded", "completed"}
  const FAILED: set<string> := {"errored", "cancelled", "canceled", "timedout", "rejected", "aborted"}

  predicate HasFailed(t: Transfer) {
    t.flags * FAILED != {}
  }

  predicate HasFinished(t: Transfer) {
    t.flags * COMPLETE != {} && !HasFailed(t)
  }

  /** The words of a state, spelled out: any failure outweighs any success. */
  lemma StatesSpelled(t: Transfer)
    ensures HasFailed(t) <==>
            || "errored" in t.flags || "cancelled" in t.flags || "canceled" in t.flags
            || "timedout" in t.flags || "rejected" in t.flags || "aborted" in t.flags
    ensures HasFinished(t) <==> ("succeeded" in t.flags || "completed" in t.flags) && !HasFailed(t)
  {
    if HasFailed(t) {
      var word :| word in t.flags * FAILED;
    }
    if t.flags * COMPLETE != {} {
      var word :| word in t.flags * COMPLETE;
    }
    assert forall word :: word in t.flags && word in FAILED ==> word in t.flags * FAILED;
    assert forall word :: word in t.flags && word in COMPLETE ==> word in t.flags * COMPLETE;
  }

  predicate SameFile(file: File, remote: string, size: nat) {
    Slashes(file.filename) == remote && file.size == size
  }

  predicate SameLeaf(file: File, remote: string, size: Option<nat>) {
    LeafName(file.filename) == LeafName(remote) && (size.Some? ==> file.size == size.value)
  }

  /** The unclaimed file a transfer stands for. Sets are walked in any order, so every
      choice that the scans allow is possible. */
  method MatchFile(files: seq<File>, remaining: set<nat>, remote: string, size: Option<nat>)
    returns (index: Option<nat>)
    requires forall i :: i in remaining ==> i < |files|
    ensures index.Some? ==> index.value in remaining && SameLeaf(files[index.value], remote, size)
    ensures index.None? ==> forall i :: i in remaining ==> !SameLeaf(files[i], remote, size)
    ensures size.Some? && (exists i :: i in remaining && SameFile(files[i], remote, size.value)) ==>
              index.Some? && SameFile(files[index.value], remote, size.value)
  {
    forall i | i in remaining && size.Some? && SameFile(files[i], remote, size.value)
      ensures SameLeaf(files[i], remote, size)
    {
      SlashesTwice(files[i].filename);
    }
    if size.Some? {
      if i :| i in remaining && SameFile(files[i], remote, size.value) {
        return Some(i);
      }
    }
    if i :| i in remaining && SameLeaf(files[i], remote, size) {
      return Some(i);
    }
    return None;
  }

  /** An exact match has the same size and, but for the kind of separators, the same name. */
  lemma ExactSpelled(file: File, name: string, size: nat)
    ensures SameFile(file, Slashes(name), size) <==>
            && file.size == size && |file.filename| == |name|
            && forall i :: 0 <= i < |name| ==>
                 file.filename[i] == name[i] || (file.filename[i] in "/\\" && name[i] in "/\\")
  {
    var a, b := Slashes(file.filename), Slashes(name);
    assert a == b <==> |a| == |b| && forall i :: 0 <= i < |b| ==> a[i] == b[i];
    forall i | 0 <= i < |name| && |file.filename| == |name|
      ensures a[i] == b[i] <==>
              file.filename[i] == name[i] || (file.filename[i] in "/\\" && name[i] in "/\\")
    {
      assert forall ch: char :: ch in "/\\" <==> ch == '/' || ch == '\\';
    }
  }

  datatype State = Failed | Complete | Downloading

  /** A listed file and whether its transfer is done. */
  datatype Listed = Listed(index: nat, complete: bool)

  /** The transfer finished and stands for the file listed for it. */
  ghost predicate Fits(files: seq<File>, t: Transfer, x: Listed) {
    && x.complete && x.index < |files| && t.size.Some? && HasFinished(t)
    && SameLeaf(files[x.index], Slashes(t.filename), t.size)
  }

  /** The listed files and the transfers correspond one to one, and with the release:
      as many of each, no file twice, and equal leaf names and sizes. */
  ghost predicate Corresponds(files: seq<File>, transfers: seq<Transfer>, listed: seq<Listed>) {
    && |listed| == |transfers| == |files|
    && Distinct(listed)
    && forall i :: 0 <= i < |listed| ==> Fits(files, transfers[i], listed[i])
  }

  ghost predicate Distinct(listed: seq<Listed>) {
    forall i, j :: 0 <= i < j < |listed| ==> listed[i].index != listed[j].index
  }

  function Indices(n: nat): (indices: set<nat>)
    ensures (forall i :: i in indices <==> 0 <= i < n) && |indices| == n
  {
    if n == 0 then {} else Indices(n - 1) + {n - 1}
  }

  /** With distinct names, a transfer that names a file exactly matches no other. */
  lemma ExactIsUnique(files: seq<File>, remote: string, size: nat, i: nat, j: nat)
    requires DistinctNames(files) && i < |files| && j < |files|
    requires SameFile(files[i], remote, size) && SameFile(files[j], remote, size)
    ensures i == j
  {
  }

  // ---------------------------------------------------------------- kinds

  /** What a match depends on when a transfer has a size. */
  datatype Kind = Kind(leaf: string, size: nat)

  function KindOf(file: File): Kind {
    Kind(LeafName(file.filename), file.size)
  }

  function Kinds(files: seq<File>): (kinds: seq<Kind>)
    ensures |kinds| == |files|
  {
    seq(|files|, i requires 0 <= i < |files| => KindOf(files[i]))
  }

  ghost predicate AllSized(transfers: seq<Transfer>) {
    forall i :: 0 <= i < |transfers| ==> transfers[i].size.Some?
  }

  ghost predicate AllDone(transfers: seq<Transfer>) {
    forall i :: 0 <= i < |transfers| ==> transfers[i].size.Some? && HasFinished(transfers[i])
  }

  function SentKind(t: Transfer): Kind
    requires t.size.Some?
  {
    Kind(LeafName(t.filename), t.size.value)
  }

  function SentKinds(transfers: seq<Transfer>): (kinds: seq<Kind>)
    requires AllSized(transfers)
    ensures |kinds| == |transfers|
  {
    seq(|transfers|, i requires 0 <= i < |transfers| => SentKind(transfers[i]))
  }

  /** With sizes, matching is a matter of kinds. */
  lemma SameKind(file: File, t: Transfer)
    requires t.size.Some?
    ensures SameLeaf(file, Slashes(t.filename), t.size) <==> KindOf(file) == SentKind(t)
  {
    SlashesTwice(t.filename);
  }

  /** The kinds of the first `n` files that are still unclaimed. */
  ghost function Left(kinds: seq<Kind>, remaining: set<nat>, n: nat): multiset<Kind>
    requires n <= |kinds|
  {
    if n == 0 then multiset{}
    else Left(kinds, remaining, n - 1) + if n - 1 in remaining then multiset{kinds[n - 1]} else multiset{}
  }

  lemma {:induction false} LeftOfAll(kinds: seq<Kind>, remaining: set<nat>, n: nat)
    requires n <= |kinds| && forall i :: 0 <= i < n ==> i in remaining
    ensures Left(kinds, remaining, n) == multiset(kinds[..n])
  {
    if n > 0 {
      LeftOfAll(kinds, remaining, n - 1);
      assert kinds[..n] == kinds[..n - 1] + [kinds[n - 1]];
    }
  }

  lemma {:induction false} LeftOfNone(kinds: seq<Kind>, n: nat)
    requires n <= |kinds|
    ensures Left(kinds, {}, n) == multiset{}
  {
    if n > 0 {
      LeftOfNone(kinds, n - 1);
    }
  }

  lemma {:induction false} LeftApart(kinds: seq<Kind>, remaining: set<nat>, n: nat, index: nat)
    requires n <= |kinds| && n <= index
    ensures Left(kinds, remaining - {index}, n) == Left(kinds, remaining, n)
  {
    if n > 0 {
      LeftApart(kinds, remaining, n - 1, index);
    }
  }

  lemma Regroup(a: multiset<Kind>, b: multiset<Kind>, x: Kind)
    ensures (a + multiset{x}) + b == (a + b) + multiset{x} == a + (b + multiset{x})
  {
  }

  lemma {:induction false} LeftWithout(kinds: seq<Kind>, remaining: set<nat>, n: nat, index: nat)
    requires index < n <= |kinds| && index in remaining
    ensures Left(kinds, remaining, n) == Left(kinds, remaining - {index}, n) + multiset{kinds[index]}
  {
    if index == n - 1 {
      LeftApart(kinds, remaining, n - 1, index);
    } else {
      LeftWithout(kinds, remaining, n - 1, index);
      var last := if n - 1 in remaining then multiset{kinds[n - 1]} else multiset{};
      Regroup(Left(kinds, remaining - {index}, n - 1), last, kinds[index]);
    }
  }

  lemma {:induction false} LeftHolds(kinds: seq<Kind>, remaining: set<nat>, n: nat, kind: Kind)
    requires n <= |kinds| && kind in Left(kinds, remaining, n)
    ensures exists i :: i in remaining && i < n && kinds[i] == kind
  {
    if kind in Left(kinds, remaining, n - 1) {
      LeftHolds(kinds, remaining, n - 1, kind);
    } else {
      assert n - 1 in remaining && kinds[n - 1] == kind;
    }
  }

  lemma LessOne(all: multiset<Kind>, sent: multiset<Kind>, left: multiset<Kind>, x: Kind)
    ensures all - sent == left + multiset{x} ==> all - (sent + multiset{x}) == left && x in all - sent
    ensures x !in all - sent ==> all - sent == all - (sent + multiset{x})
  {
    assert x in left + multiset{x};
    assert all - (sent + multiset{x}) == all - sent - multiset{x};
    assert left + multiset{x} - multiset{x} == left;
  }

  lemma FitsOneMore(all: multiset<Kind>, sent: multiset<Kind>, x: Kind)
    ensures sent <= all && x in all - sent <==> sent + multiset{x} <= all
  {
  }

  lemma SameSize(a: multiset<Kind>, b: multiset<Kind>)
    requires a <= b && |a| == |b|
    ensures a == b
  {
    assert b == a + (b - a);
  }

  /** The kinds sent one by one each find one left exactly when all of them fit. */
  lemma {:induction false} EachFits(all: multiset<Kind>, sent: seq<Kind>, n: nat)
    requires n <= |sent|
    ensures EachFinds(all, sent, n) <==> multiset(sent[..n]) <= all
  {
    if n > 0 {
      EachFits(all, sent, n - 1);
      OneMoreFinds(all, sent, n - 1);
      assert sent[..n] == sent[..n - 1] + [sent[n - 1]];
      assert multiset(sent[..n]) == multiset(sent[..n - 1]) + multiset{sent[n - 1]};
      FitsOneMore(all, multiset(sent[..n - 1]), sent[n - 1]);
    }
  }

  ghost predicate EachFinds(all: multiset<Kind>, sent: seq<Kind>, n: nat)
    requires n <= |sent|
  {
    forall k: nat :: k < n ==> FindsOne(all, sent, k)
  }

  lemma OneMoreFinds(all: multiset<Kind>, sent: seq<Kind>, n: nat)
    requires n < |sent|
    ensures EachFinds(all, sent, n + 1) <==> EachFinds(all, sent, n) && FindsOne(all, sent, n)
  {
  }

  ghost predicate FindsOne(all: multiset<Kind>, sent: seq<Kind>, k: nat)
    requires k < |sent|
  {
    sent[k] in all - multiset(sent[..k])
  }

  /** A finished transfer of a kind that earlier transfers have used up. */
  ghost predicate Surplus(files: seq<File>, transfers: seq<Transfer>, k: nat)
    requires k < |transfers|
  {
    && AllSized(transfers[..k + 1]) && HasFinished(transfers[k])
    && !FindsOne(multiset(Kinds(files)), SentKinds(transfers[..k + 1]), k)
  }

  ghost predicate AnySurplus(files: seq<File>, transfers: seq<Transfer>, n: nat)
    requires n <= |transfers|
  {
    exists k: nat :: k < n && Surplus(files, transfers, k)
  }

  /** Every transfer is finished, and together they are the files, leaf for leaf and
      size for size. */
  ghost predicate Delivered(files: seq<File>, transfers: seq<Transfer>) {
    AllDone(transfers) && multiset(SentKinds(transfers)) == multiset(Kinds(files))
  }

  lemma SentPrefix(transfers: seq<Transfer>, k: nat)
    requires AllSized(transfers) && k <= |transfers|
    ensures AllSized(transfers[..k]) && SentKinds(transfers[..k]) == SentKinds(transfers)[..k]
  {
  }

  lemma SurplusFindsNone(files: seq<File>, transfers: seq<Transfer>, k: nat)
    requires AllDone(transfers) && k < |transfers|
    ensures Surplus(files, transfers, k) <==> !FindsOne(multiset(Kinds(files)), SentKinds(transfers), k)
  {
    SentPrefix(transfers, k + 1);
    assert SentKinds(transfers)[..k + 1][..k] == SentKinds(transfers)[..k];
  }

  lemma DeliveredMeansNoSurplus(files: seq<File>, transfers: seq<Transfer>)
    requires AllDone(transfers)
    ensures Delivered(files, transfers) <==> |transfers| == |files| && !AnySurplus(files, transfers, |transfers|)
  {
    var all, sent := multiset(Kinds(files)), SentKinds(transfers);
    EachFits(all, sent, |sent|);
    assert sent[..|sent|] == sent;
    forall k: nat | k < |transfers| ensures Surplus(files, transfers, k) <==> !FindsOne(all, sent, k) {
      SurplusFindsNone(files, transfers, k);
    }
    if |transfers| == |files| && multiset(sent) <= all {
      SameSize(multiset(sent), all);
    }
    assert Delivered(files, transfers) ==> |multiset(sent)| == |all|;
  }

  // ---------------------------------------------------------------- a batch

  /** What is unclaimed and what is listed make up the release. */
  ghost predicate Partition(files: seq<File>, remaining: set<nat>, listed: seq<Listed>) {
    && Distinct(listed) && |remaining| + |listed| == |files|
    && (forall i :: i in remaining ==> i < |files|)
    && forall k :: 0 <= k < |listed| ==> listed[k].index < |files| && listed[k].index !in remaining
  }

  lemma ClaimKeeps(files: seq<File>, remaining: set<nat>, listed: seq<Listed>, x: Listed)
    requires Partition(files, remaining, listed) && x.index in remaining
    ensures Partition(files, remaining - {x.index}, listed + [x])
  {
  }

  ghost predicate AnyFailed(transfers: seq<Transfer>) {
    exists k :: 0 <= k < |transfers| && HasFailed(transfers[k])
  }

  /** Some transfer failed, or finished without a file left to stand for. */
  ghost predicate Broken(transfers: seq<Transfer>) {
    exists k :: 0 <= k < |transfers|
                && (HasFailed(transfers[k]) || (HasFinished(transfers[k]) && transfers[k].size.Some?))
  }

  /** The first `k` transfers all fit the files listed for them. */
  ghost predicate FitSoFar(files: seq<File>, transfers: seq<Transfer>, k: nat, listed: seq<Listed>) {
    && |listed| == k <= |transfers|
    && forall i :: 0 <= i < k ==> Fits(files, transfers[i], listed[i])
  }

  /** While every transfer has a size, whichever files were chosen, what is left is what
      was not sent. */
  ghost predicate Balanced(files: seq<File>, transfers: seq<Transfer>, k: nat, remaining: set<nat>)
    requires k <= |transfers|
  {
    AllSized(transfers[..k]) ==>
      Left(Kinds(files), remaining, |files|) == multiset(Kinds(files)) - multiset(SentKinds(transfers[..k]))
  }

  /** A claim of kind `x`, or none because none is left, keeps the balance. */
  lemma ClaimBalances(kinds: seq<Kind>, sent: seq<Kind>, remaining: set<nat>, x: Kind, index: Option<nat>)
    requires Left(kinds, remaining, |kinds|) == multiset(kinds) - multiset(sent)
    requires index.Some? ==> index.value in remaining && index.value < |kinds| && kinds[index.value] == x
    requires index.None? ==> forall i :: i in remaining && i < |kinds| ==> kinds[i] != x
    ensures Left(kinds, if index.Some? then remaining - {index.value} else remaining, |kinds|)
         == multiset(kinds) - multiset(sent + [x])
    ensures index.Some? <==> FindsOne(multiset(kinds), sent + [x], |sent|)
  {
    var left := Left(kinds, if index.Some? then remaining - {index.value} else remaining, |kinds|);
    assert (sent + [x])[..|sent|] == sent && multiset(sent + [x]) == multiset(sent) + multiset{x};
    LessOne(multiset(kinds), multiset(sent), left, x);
    if index.Some? {
      LeftWithout(kinds, remaining, |kinds|, index.value);
    } else if x in Left(kinds, remaining, |kinds|) {
      LeftHolds(kinds, remaining, |kinds|, x);
    }
  }

  lemma SentNext(transfers: seq<Transfer>, k: nat)
    requires k < |transfers| && AllSized(transfers[..k + 1])
    ensures transfers[k].size.Some? && AllSized(transfers[..k])
    ensures SentKinds(transfers[..k + 1]) == SentKinds(transfers[..k]) + [SentKind(transfers[k])]
  {
    assert transfers[..k + 1][k] == transfers[k];
    assert forall i :: 0 <= i < k ==> transfers[..k + 1][i] == transfers[..k][i];
  }

  /** One transfer of a kind takes a file of that kind, if any is left. */
  lemma BalanceKept(
      files: seq<File>, transfers: seq<Transfer>, k: nat, remaining: set<nat>, index: Option<nat>)
    requires k < |transfers| && Balanced(files, transfers, k, remaining) && forall i :: i in remaining ==> i < |files|
    requires index.Some? ==>
               && index.value in remaining
               && SameLeaf(files[index.value], Slashes(transfers[k].filename), transfers[k].size)
    requires index.None? ==>
               forall i :: i in remaining ==> !SameLeaf(files[i], Slashes(transfers[k].filename), transfers[k].size)
    ensures Balanced(files, transfers, k + 1, if index.Some? then remaining - {index.value} else remaining)
    ensures AllSized(transfers[..k + 1]) && HasFinished(transfers[k]) ==>
              (index.None? <==> Surplus(files, transfers, k))
  {
    if AllSized(transfers[..k + 1]) {
      var kinds := Kinds(files);
      SentNext(transfers, k);
      forall i: nat | i < |files|
        ensures SameLeaf(files[i], Slashes(transfers[k].filename), transfers[k].size) <==>
                  kinds[i] == SentKind(transfers[k])
      {
        SameKind(files[i], transfers[k]);
      }
      ClaimBalances(kinds, SentKinds(transfers[..k]), remaining, SentKind(transfers[k]), index);
    }
  }

  /** What the two flags say of the first `k` transfers. */
  ghost predicate Verdict(files: seq<File>, transfers: seq<Transfer>, k: nat, complete: bool, failed: bool)
    requires k <= |transfers|
  {
    && (complete <==>
          transfers != [] && |transfers| == |files| && AllDone(transfers[..k]) && !AnySurplus(files, transfers, k))
    && (AnyFailed(transfers[..k]) ==> failed)
    && (failed ==> Broken(transfers[..k]))
    && (AllSized(transfers[..k]) ==> (failed <==> AnyFailed(transfers[..k]) || AnySurplus(files, transfers, k)))
  }

  lemma VerdictNext(
      files: seq<File>, transfers: seq<Transfer>, k: nat, complete: bool, failed: bool, matched: bool)
    requires k < |transfers| && Verdict(files, transfers, k, complete, failed)
    requires AllSized(transfers[..k + 1]) && HasFinished(transfers[k]) ==> (!matched <==> Surplus(files, transfers, k))
    ensures var t := transfers[k];
            Verdict(
              files, transfers, k + 1,
              complete && matched && !HasFailed(t) && HasFinished(t) && t.size.Some?,
              failed || HasFailed(t) || (HasFinished(t) && t.size.Some? && !matched))
  {
    DoneGrows(files, transfers, k);
    FailuresGrow(transfers, k);
  }

  /** All that the loop maintains. */
  ghost predicate Progress(
      files: seq<File>, transfers: seq<Transfer>, k: nat, remaining: set<nat>, listed: seq<Listed>,
      complete: bool, failed: bool)
  {
    && k <= |transfers| && Partition(files, remaining, listed) && Balanced(files, transfers, k, remaining)
    && (complete ==> FitSoFar(files, transfers, k, listed))
    && Verdict(files, transfers, k, complete, failed)
  }

  lemma ProgressBegins(files: seq<File>, transfers: seq<Transfer>)
    ensures Progress(files, transfers, 0, Indices(|files|), [], transfers != [] && |transfers| == |files|, false)
  {
    assert transfers[..0] == [];
    BalancedAtFirst(files, transfers);
  }

  lemma BalancedAtFirst(files: seq<File>, transfers: seq<Transfer>)
    ensures Balanced(files, transfers, 0, Indices(|files|))
  {
    AllLeft(Kinds(files));
    assert multiset(SentKinds(transfers[..0])) == multiset{};
  }

  lemma AllLeft(kinds: seq<Kind>)
    ensures Left(kinds, Indices(|kinds|), |kinds|) == multiset(kinds)
  {
    LeftOfAll(kinds, Indices(|kinds|), |kinds|);
    assert kinds[..|kinds|] == kinds;
  }

  lemma DoneGrows(files: seq<File>, transfers: seq<Transfer>, k: nat)
    requires k < |transfers|
    ensures AllDone(transfers[..k + 1]) <==>
              && AllDone(transfers[..k]) && transfers[k].size.Some?
              && HasFinished(transfers[k])
    ensures AllSized(transfers[..k + 1]) <==> AllSized(transfers[..k]) && transfers[k].size.Some?
    ensures AnySurplus(files, transfers, k + 1) <==> AnySurplus(files, transfers, k) || Surplus(files, transfers, k)
    ensures AllDone(transfers[..k]) ==> AllSized(transfers[..k])
  {
    var longer := transfers[..k + 1];
    assert longer[k] == transfers[k] && forall i :: 0 <= i < k ==> longer[i] == transfers[..k][i];
  }

  lemma FailuresGrow(transfers: seq<Transfer>, k: nat)
    requires k < |transfers|
    ensures AnyFailed(transfers[..k + 1]) <==> AnyFailed(transfers[..k]) || HasFailed(transfers[k])
    ensures Broken(transfers[..k + 1]) <==>
            Broken(transfers[..k]) || HasFailed(transfers[k]) || (HasFinished(transfers[k]) && transfers[k].size.Some?)
  {
    var longer := transfers[..k + 1];
    assert longer[k] == transfers[k] && forall i :: 0 <= i < k ==> longer[i] == transfers[..k][i];
  }

  /** One transfer against the unclaimed files. */
  method Take(
      files: seq<File>, transfers: seq<Transfer>, k: nat, remaining: set<nat>, listed: seq<Listed>,
      complete: bool, failed: bool)
    returns (rest: set<nat>, longer: seq<Listed>, still: bool, broken: bool)
    requires k < |transfers| && Progress(files, transfers, k, remaining, listed, complete, failed)
    ensures Progress(files, transfers, k + 1, rest, longer, still, broken)
  {
    var transfer := transfers[k];
    var done := HasFinished(transfer);
    var index := MatchFile(files, remaining, Slashes(transfer.filename), transfer.size);
    broken := failed || HasFailed(transfer) || (done && transfer.size.Some? && index.None?);
    still := complete && index.Some? && !HasFailed(transfer) && done && transfer.size.Some?;
    rest, longer := remaining, listed;
    BalanceKept(files, transfers, k, remaining, index);
    VerdictNext(files, transfers, k, complete, failed, index.Some?);
    if index.Some? {
      rest := remaining - {index.value};
      longer := listed + [Listed(index.value, done && !HasFailed(transfer) && transfer.size.Some?)];
      ClaimKeeps(files, remaining, listed, longer[|listed|]);
    }
  }

  /** The transfers in turn, against the files that are left. */
  method TakeAll(files: seq<File>, transfers: seq<Transfer>)
    returns (remaining: set<nat>, listed: seq<Listed>, complete: bool, failed: bool)
    ensures Progress(files, transfers, |transfers|, remaining, listed, complete, failed)
  {
    remaining, listed := Indices(|files|), [];
    complete, failed := transfers != [] && |transfers| == |files|, false;
    ProgressBegins(files, transfers);
    for k := 0 to |transfers|
      invariant Progress(files, transfers, k, remaining, listed, complete, failed)
    {
      remaining, listed, complete, failed := Take(files, transfers, k, remaining, listed, complete, failed);
    }
  }

  /** The state of a batch from the transfers the service lists for it. The files are
      walked in any order, and yet a batch is complete exactly when its transfers are
      finished and are the files of the release, leaf for leaf and size for size. When
      all transfers have sizes it fails exactly for a failed transfer or a surplus. */
  method Batch(files: seq<File>, transfers: seq<Transfer>) returns (state: State, listed: seq<Listed>)
    ensures state == Complete <==> files != [] && Delivered(files, transfers)
    ensures state == Complete ==> Corresponds(files, transfers, listed)
    ensures AnyFailed(transfers) ==> state == Failed
    ensures state == Failed ==> Broken(transfers)
    ensures AllSized(transfers) ==>
              (state == Failed <==> AnyFailed(transfers) || AnySurplus(files, transfers, |transfers|))
    ensures Distinct(listed)
  {
    var remaining, complete, failed;
    remaining, listed, complete, failed := TakeAll(files, transfers);
    CompleteMeansDelivered(files, transfers, remaining, listed, complete, failed);
    if remaining != {} || |listed| != |files| {
      complete := false;
    }
    if failed {
      complete := false;
    }
    state := if failed then Failed else if complete then Complete else Downloading;
  }

  lemma CompleteMeansDelivered(
      files: seq<File>, transfers: seq<Transfer>, remaining: set<nat>, listed: seq<Listed>, complete: bool,
      failed: bool)
    requires Progress(files, transfers, |transfers|, remaining, listed, complete, failed)
    ensures complete <==> files != [] && Delivered(files, transfers)
    ensures complete ==> Corresponds(files, transfers, listed) && remaining == {} && |listed| == |files| && !failed
    ensures (AnyFailed(transfers) ==> failed) && (failed ==> Broken(transfers)) && Distinct(listed)
    ensures AllSized(transfers) ==> (failed <==> AnyFailed(transfers) || AnySurplus(files, transfers, |transfers|))
  {
    assert transfers[..|transfers|] == transfers;
    if AllDone(transfers) {
      DeliveredMeansNoSurplus(files, transfers);
    }
    assert AllDone(transfers) ==> !AnyFailed(transfers);
  }

  /** Every transfer finished and stands for its own file, in any order. */
  ghost predicate Delivers(files: seq<File>, transfers: seq<Transfer>, order: seq<nat>) {
    && |order| == |transfers| == |files|
    && (forall i, j :: 0 <= i < j < |order| ==> order[i] != order[j])
    && forall i :: 0 <= i < |order| ==> DeliversAt(files, transfers[i], order[i])
  }

  ghost predicate DeliversAt(files: seq<File>, t: Transfer, index: nat) {
    && index < |files| && t.size.Some? && HasFinished(t)
    && SameLeaf(files[index], Slashes(t.filename), t.size)
  }

  /** The files not yet named by the first `k` of an order. */
  ghost predicate Unnamed(remaining: set<nat>, order: seq<nat>, n: nat, k: nat)
    requires k <= |order|
  {
    |remaining| == n - k && forall i: nat :: i in remaining <==> i < n && i !in order[..k]
  }

  lemma UnnamedNext(before: set<nat>, order: seq<nat>, n: nat, k: nat)
    requires k < |order| && order[k] < n && Unnamed(before, order, n, k)
    requires forall i, j :: 0 <= i < j < |order| ==> order[i] != order[j]
    ensures order[k] in before && Unnamed(before - {order[k]}, order, n, k + 1)
  {
    assert order[..k + 1] == order[..k] + [order[k]];
  }

  lemma MoveOne(left: multiset<Kind>, sent: seq<Kind>, k: nat)
    requires k < |sent|
    ensures (left + multiset{sent[k]}) + multiset(sent[..k]) == left + multiset(sent[..k + 1])
  {
    assert sent[..k + 1] == sent[..k] + [sent[k]];
    assert multiset(sent[..k + 1]) == multiset(sent[..k]) + multiset{sent[k]};
  }

  lemma {:induction false} OrderBalances(kinds: seq<Kind>, sent: seq<Kind>, order: seq<nat>, k: nat)
    returns (remaining: set<nat>)
    requires |order| == |sent| == |kinds| && k <= |order|
    requires forall i, j :: 0 <= i < j < |order| ==> order[i] != order[j]
    requires forall i :: 0 <= i < |order| ==> order[i] < |kinds| && kinds[order[i]] == sent[i]
    ensures Unnamed(remaining, order, |kinds|, k)
    ensures Left(kinds, remaining, |kinds|) + multiset(sent[..k]) == multiset(kinds)
  {
    if k == 0 {
      remaining := Indices(|kinds|);
      AllLeft(kinds);
    } else {
      var before := OrderBalances(kinds, sent, order, k - 1);
      UnnamedNext(before, order, |kinds|, k - 1);
      remaining := before - {order[k - 1]};
      LeftWithout(kinds, before, |kinds|, order[k - 1]);
      MoveOne(Left(kinds, remaining, |kinds|), sent, k - 1);
    }
  }

  /** Any one-to-one correspondence by leaf and size, in any order, is a delivery. */
  lemma OrderDelivers(files: seq<File>, transfers: seq<Transfer>, order: seq<nat>)
    requires Delivers(files, transfers, order)
    ensures Delivered(files, transfers)
  {
    forall i | 0 <= i < |transfers|
      ensures transfers[i].size.Some? && HasFinished(transfers[i]) && order[i] < |files|
      ensures Kinds(files)[order[i]] == SentKind(transfers[i])
    {
      assert DeliversAt(files, transfers[i], order[i]);
      SameKind(files[order[i]], transfers[i]);
    }
    var kinds, sent := Kinds(files), SentKinds(transfers);
    var remaining := OrderBalances(kinds, sent, order, |order|);
    LeftOfNone(kinds, |kinds|);
    assert sent[..|order|] == sent;
  }

  /** A batch completes exactly when some one-to-one correspondence exists. */
  lemma CorrespondenceDelivers(files: seq<File>, transfers: seq<Transfer>, listed: seq<Listed>)
    requires Corresponds(files, transfers, listed)
    ensures Delivered(files, transfers)
  {
    var order := seq(|listed|, i requires 0 <= i < |listed| => listed[i].index);
    forall i | 0 <= i < |order| ensures DeliversAt(files, transfers[i], order[i]) {
      assert Fits(files, transfers[i], listed[i]);
    }
    OrderDelivers(files, transfers, order);
  }

  /** In a complete batch each transfer names a file of its own by the same text in the
      last component, at the same size, and has succeeded. */
  lemma CompleteNamesAgree(
      files: seq<File>, transfers: seq<Transfer>, listed: seq<Listed>, i: nat, sent: string, offered: string)
    requires Corresponds(files, transfers, listed) && i < |transfers|
    requires EndsIn(transfers[i].filename, sent) && EndsIn(files[listed[i].index].filename, offered)
    ensures sent == offered && transfers[i].size == Some(files[listed[i].index].size)
    ensures "succeeded" in transfers[i].flags || "completed" in transfers[i].flags
    ensures forall j :: 0 <= j < |transfers| && j != i ==> listed[j].index != listed[i].index
  {
    assert Fits(files, transfers[i], listed[i]);
    LeafSpelled(transfers[i].filename, sent);
    LeafSpelled(files[listed[i].index].filename, offered);
    SlashesTwice(transfers[i].filename);
    StatesSpelled(transfers[i]);
  }

  /** And transfers that name the files so, one each and in any order, complete it. */
  lemma NamesDeliver(files: seq<File>, transfers: seq<Transfer>, order: seq<nat>, names: seq<string>)
    requires |order| == |names| == |transfers| == |files|
    requires forall i, j :: 0 <= i < j < |order| ==> order[i] != order[j]
    requires forall i :: 0 <= i < |order| ==>
               && order[i] < |files|
               && EndsIn(transfers[i].filename, names[i]) && EndsIn(files[order[i]].filename, names[i])
               && transfers[i].size == Some(files[order[i]].size) && HasFinished(transfers[i])
    ensures Delivered(files, transfers)
  {
    forall i | 0 <= i < |order| ensures DeliversAt(files, transfers[i], order[i]) {
      LeafSpelled(transfers[i].filename, names[i]);
      LeafSpelled(files[order[i]].filename, names[i]);
      SlashesTwice(transfers[i].filename);
    }
    OrderDelivers(files, transfers, order);
  }
}
