/** The binary form of the catalog (Directory::encode and decode of crates/holofs-model/src/fs.rs). */
module CatalogCodec {
  import opened Wrappers
  import opened Fips180
  import opened Paths
  import opened ObjectManifest
  import opened Codec
  import opened ManifestFormat
  import opened ManifestCodec
  import opened CatalogTree
  import opened Catalog

  /** "HOLOFSD1" */
  const DIRECTORY_MAGIC: Bytes := [72, 79, 76, 79, 70, 83, 68, 49]

  datatype Entry = Entry(name: Path, manifest: Manifest)

  function EncodeEntry(e: Entry): Bytes {
    EncodeText(e.name) + (BigEndian(|ManifestBytes(e.manifest, [])|, 4) + ManifestBytes(e.manifest, []))
  }

  /** A name, a length, and a manifest within that many bytes. */
  function ParseEntry(s: Bytes): Parsed<Entry> {
    var name :- Text16(s);
    var len :- U32(name.1);
    var body :- Take(len.1, len.0);
    var m :- ParseManifest(body.0);
    Some((Entry(name.0, m.0), body.1))
  }

  predicate EntryFits(e: Entry) {
    TextFits(e.name) && Encodable(e.manifest) && Shaped(e.manifest) && |ManifestBytes(e.manifest, [])| < M32
  }

  lemma EntryLaws()
    ensures Extends(ParseEntry) && ReadsBack(ParseEntry, EncodeEntry, EntryFits)
  {
    Text16Laws(); U32Laws();
    hide Text16, U32, ParseManifest, ManifestBytes, Encodable, TextFits, EncodeText, BigEndian, Shaped;
    forall s, t | ParseEntry(s).Some?
      ensures ParseEntry(s + t) == Some((ParseEntry(s).value.0, ParseEntry(s).value.1 + t))
    {
      var name := Text16(s).value;
      assert Text16(s + t) == Some((name.0, name.1 + t));
      var len := U32(name.1).value;
      assert U32(name.1 + t) == Some((len.0, len.1 + t));
      TakeLaws(len.1, len.0, t);
    }
    forall e, t | EntryFits(e) ensures ParseEntry(EncodeEntry(e) + t) == Some((e, t)) {
      var mb := ManifestBytes(e.manifest, []);
      ManifestRoundTrip(e.manifest, []);
      Shift(EncodeText(e.name), BigEndian(|mb|, 4), mb);
      assert EncodeEntry(e) + t == EncodeText(e.name) + (BigEndian(|mb|, 4) + (mb + t));
      assert Text16(EncodeText(e.name) + (BigEndian(|mb|, 4) + (mb + t))) == Some((e.name, BigEndian(|mb|, 4) + (mb + t)));
      U32Reads(|mb|, mb + t);
      TakeLaws(mb, |mb|, t);
    }
  }

  /** The catalog's bytes in front of t, its entries listed in key order. */
  function DirectoryBytes(list: seq<Entry>, t: Bytes): Bytes {
    DIRECTORY_MAGIC + (BigEndian(|list|, 4) + (Concat(list, EncodeEntry) + t))
  }

  /** The magic "HOLOFSD1", the number of entries, and the entries from byte 12 on. */
  lemma DirectoryLayout(list: seq<Entry>, t: Bytes)
    requires |list| < M32
    ensures var s := DirectoryBytes(list, t);
      && |s| >= 12 && s[..8] == [72, 79, 76, 79, 70, 83, 68, 49] && FieldAt(s, 8, 4) == |list|
      && s[12..] == Concat(list, EncodeEntry) + t
  {
    PowValues();
    hide BigEndian, FieldAt, Pow256, Concat, EncodeEntry;
    var rest := Concat(list, EncodeEntry) + t;
    Field(DirectoryBytes(list, t), DIRECTORY_MAGIC, |list|, 4, rest);
  }

  /** An entry: the name behind its length in two bytes, the manifest behind its length in four. */
  lemma EntryLayout(e: Entry, t: Bytes)
    requires |e.name| < 0x1_0000 && |ManifestBytes(e.manifest, [])| < M32
    ensures var s, mb, n := EncodeEntry(e) + t, ManifestBytes(e.manifest, []), |e.name|;
      && |s| == 6 + n + |mb| + |t| && FieldAt(s, 0, 2) == n && s[2..2 + n] == e.name
      && FieldAt(s, 2 + n, 4) == |mb| && s[6 + n..6 + n + |mb|] == mb
  {
    PowValues();
    hide BigEndian, FieldAt, Pow256, ManifestBytes;
    var s, mb := EncodeEntry(e) + t, ManifestBytes(e.manifest, []);
    var front := BigEndian(|e.name|, 2);
    EntryRegrouped(e, mb, t);
    EmptyFront(s);
    Field(s, [], |e.name|, 2, e.name + (BigEndian(|mb|, 4) + (mb + t)));
    Behind(s, front, e.name, BigEndian(|mb|, 4) + (mb + t));
    Field(s, front + e.name, |mb|, 4, mb + t);
    Behind(s, front + e.name + BigEndian(|mb|, 4), mb, t);
  }

  lemma EntryRegrouped(e: Entry, mb: Bytes, t: Bytes)
    requires mb == ManifestBytes(e.manifest, [])
    ensures EncodeEntry(e) + t == BigEndian(|e.name|, 2) + (e.name + (BigEndian(|mb|, 4) + (mb + t)))
  {
    hide BigEndian, ManifestBytes;
    var n, l := BigEndian(|e.name|, 2), BigEndian(|mb|, 4);
    AddAssoc(n + e.name, l + mb, t);
    AddAssoc(l, mb, t);
    AddAssoc(n, e.name, l + (mb + t));
  }

  lemma AddAssoc(a: Bytes, b: Bytes, c: Bytes)
    ensures (a + b) + c == a + (b + c)
  {}

  function ParseDirectory(s: Bytes): Parsed<seq<Entry>> {
    var magic :- Take(s, 8);
    if magic.0 != DIRECTORY_MAGIC then None else ParseList(magic.1)
  }

  /** A count and that many entries. */
  function ParseList(s: Bytes): Parsed<seq<Entry>> {
    var n :- U32(s);
    Repeat(n.0, ParseEntry, n.1)
  }

  /** Later entries replace earlier ones of the same name. */
  function MapOf(list: seq<Entry>): Entries {
    if list == [] then map[] else
      var e := list[|list| - 1];
      MapOf(list[..|list| - 1])[e.name := e.manifest]
  }

  lemma DirectoryExtends(s: Bytes, t: Bytes)
    requires ParseDirectory(s).Some?
    ensures ParseDirectory(s + t) == Some((ParseDirectory(s).value.0, ParseDirectory(s).value.1 + t))
  {
    EntryLaws(); U32Laws();
    hide U32, ParseEntry, Take, Repeat, EncodeEntry, EntryFits;
    TakeLaws(s, 8, t);
    var s1 := Take(s, 8).value.1;
    var n := U32(s1).value;
    assert U32(s1 + t) == Some((n.0, n.1 + t));
    RepeatLaws(n.0, ParseEntry, n.1, t);
  }

  predicate ListEncodable(list: seq<Entry>) {
    |list| < M32 && forall i :: 0 <= i < |list| ==> EntryFits(list[i])
  }

  lemma DirectoryReads(list: seq<Entry>, t: Bytes)
    requires ListEncodable(list)
    ensures ParseDirectory(DirectoryBytes(list, t)) == Some((list, t))
  {
    EntryLaws();
    hide U32, ParseEntry, Take, Repeat, EncodeEntry, EntryFits, Concat, BigEndian;
    TakeLaws(DIRECTORY_MAGIC, 8, BigEndian(|list|, 4) + (Concat(list, EncodeEntry) + t));
    U32Reads(|list|, Concat(list, EncodeEntry) + t);
    RepeatReads(list, ParseEntry, EncodeEntry, EntryFits, t);
  }

  /** Every strict prefix of an encoded catalog is rejected. */
  lemma DirectoryPrefixRejected(list: seq<Entry>, cut: nat)
    requires ListEncodable(list) && cut < |DirectoryBytes(list, [])|
    ensures ParseDirectory(DirectoryBytes(list, [])[..cut]).None?
  {
    hide ParseDirectory, DirectoryBytes, EntryFits;
    forall s, t | ParseDirectory(s).Some?
      ensures ParseDirectory(s + t) == Some((ParseDirectory(s).value.0, ParseDirectory(s).value.1 + t))
    {
      DirectoryExtends(s, t);
    }
    DirectoryReads(list, []);
    PrefixRejected(ParseDirectory, DirectoryBytes(list, []), list, cut);
  }

  // ---- As run by the source -----------------------------------------------------------------------------

  /** The list holds exactly the entries of the catalog, in key order. */
  ghost predicate ListsEntries(list: seq<Entry>, m: Entries) {
    && InKeyOrder(list)
    && (forall i :: 0 <= i < |list| ==> list[i].name in m && list[i].manifest == m[list[i].name])
    && (forall k :: k in m ==> exists i :: 0 <= i < |list| && list[i].name == k)
  }

  ghost predicate InKeyOrder(list: seq<Entry>) {
    forall i, j :: 0 <= i < j < |list| ==> Before(list[i].name, list[j].name)
  }

  /** Every key of the map is the name of an entry. */
  lemma {:induction false} NameOfKey(list: seq<Entry>, k: Path) returns (i: nat)
    requires k in MapOf(list)
    ensures i < |list| && list[i].name == k
  {
    var n := |list| - 1;
    if list[n].name == k {
      i := n;
    } else {
      i := NameOfKey(list[..n], k);
    }
  }

  /** No later entry of an ordered list replaces an earlier one. */
  lemma {:induction false} EntryKept(list: seq<Entry>, i: nat)
    requires InKeyOrder(list) && i < |list|
    ensures list[i].name in MapOf(list) && MapOf(list)[list[i].name] == list[i].manifest
  {
    hide Before;
    var n := |list| - 1;
    if i == n {
    } else {
      EntryKept(list[..n], i);
      BeforeIsTotal(list[n].name, list[n].name);
      assert Before(list[i].name, list[n].name);
    }
  }

  lemma MapOfNames(list: seq<Entry>)
    requires InKeyOrder(list)
    ensures forall k :: k in MapOf(list) <==> exists i :: 0 <= i < |list| && list[i].name == k
    ensures forall i :: 0 <= i < |list| ==> list[i].name in MapOf(list) && MapOf(list)[list[i].name] == list[i].manifest
  {
    hide Before, MapOf, InKeyOrder;
    forall i | 0 <= i < |list| ensures list[i].name in MapOf(list) && MapOf(list)[list[i].name] == list[i].manifest {
      EntryKept(list, i);
    }
    forall k | k in MapOf(list) ensures exists i :: 0 <= i < |list| && list[i].name == k {
      var i := NameOfKey(list, k);
    }
  }

  /** Reading the list back gives the catalog. */
  lemma ListIsCatalog(list: seq<Entry>, m: Entries)
    requires ListsEntries(list, m)
    ensures MapOf(list) == m
  {
    hide Before, MapOf;
    MapOfNames(list);
    assert forall k :: k in MapOf(list) <==> k in m;
  }

  /** The bytes of the entries in key order. */
  ghost predicate IsEncoding(b: Bytes, m: Entries) {
    exists list :: ListsEntries(list, m) && b == DirectoryBytes(list, [])
  }

  /** Directory::encode */
  method EncodeDirectory(d: Directory) returns (b: Bytes)
    requires forall k :: k in d.entries ==> Shaped(d.entries[k])
    ensures IsEncoding(b, d.entries)
  {
    hide Before, EncodeEntry, BigEndian, Shaped, ManifestBytes;
    var keys := d.Range([]);
    NothingBeforeEmpty();
    KeyCount(keys, d.entries);
    ghost var list: seq<Entry> := [];
    ghost var head := DIRECTORY_MAGIC + BigEndian(|keys|, 4);
    b := DIRECTORY_MAGIC + BigEndian(|d.entries|, 4);
    for i := 0 to |keys|
      invariant |list| == i && b == head + Concat(list, EncodeEntry)
      invariant forall j :: 0 <= j < i ==> list[j] == Entry(keys[j], d.entries[keys[j]])
    {
      assert keys[i] in keys;
      var mb := Encode(d.entries[keys[i]]);
      EntryWritten(b, keys[i], d.entries[keys[i]], mb);
      Shift(head, Concat(list, EncodeEntry), EncodeEntry(Entry(keys[i], d.entries[keys[i]])));
      ConcatSnoc(list, Entry(keys[i], d.entries[keys[i]]), EncodeEntry);
      b := b + BigEndian(|keys[i]|, 2) + keys[i] + BigEndian(|mb|, 4) + mb;
      list := list + [Entry(keys[i], d.entries[keys[i]])];
    }
    DirectoryJoined(list);
    KeysList(keys, list, d.entries);
  }

  lemma EntryWritten(b: Bytes, name: Path, m: Manifest, mb: Bytes)
    requires mb == ManifestBytes(m, [])
    ensures b + BigEndian(|name|, 2) + name + BigEndian(|mb|, 4) + mb == b + EncodeEntry(Entry(name, m))
  {
    hide ManifestBytes, BigEndian;
    var n, l := BigEndian(|name|, 2), BigEndian(|mb|, 4);
    Shift(b, n, name);
    Shift(b + (n + name), l, mb);
    Shift(b, n + name, l + mb);
  }

  lemma DirectoryJoined(list: seq<Entry>)
    ensures DIRECTORY_MAGIC + BigEndian(|list|, 4) + Concat(list, EncodeEntry) == DirectoryBytes(list, [])
  {
    hide Concat, EncodeEntry, BigEndian;
    Shift(DIRECTORY_MAGIC, BigEndian(|list|, 4), Concat(list, EncodeEntry));
    assert Concat(list, EncodeEntry) + [] == Concat(list, EncodeEntry);
  }

  lemma KeyCount(keys: seq<Path>, m: Entries)
    requires Ascending(keys) && forall k :: k in keys <==> k in m
    ensures |keys| == |m|
  {
    hide Before;
    AscendingCount(keys, m.Keys);
    assert |m.Keys| == |m|;
  }

  lemma KeysList(keys: seq<Path>, list: seq<Entry>, m: Entries)
    requires Ascending(keys) && (forall k :: k in keys <==> k in m) && |list| == |keys|
    requires forall j :: 0 <= j < |keys| ==> keys[j] in m && list[j] == Entry(keys[j], m[keys[j]])
    ensures ListsEntries(list, m)
  {
    hide Before;
    forall k | k in m ensures exists i :: 0 <= i < |list| && list[i].name == k {
      var i :| 0 <= i < |keys| && keys[i] == k;
      assert list[i].name == k;
    }
  }

  /** Directory::decode; bytes after the last entry are ignored. */
  method DecodeDirectory(buf: Bytes) returns (r: Option<Directory>)
    ensures r.Some? <==> ParseDirectory(buf).Some?
    ensures r.Some? ==> fresh(r.value) && r.value.entries == MapOf(ParseDirectory(buf).value.0)
  {
    if |buf| < 12 || buf[..8] != DIRECTORY_MAGIC {
      ShortDirectory(buf);
      return None;
    }
    AfterMagic(buf);
    hide ParseDirectory, ParseList, MapOf, Take;
    var c := new Cursor(buf);
    TakeWhole(buf, 8);
    var magic := c.TakeBytes(8);
    var entries := ReadList(c);
    if entries.None? {
      return None;
    }
    var d := new Directory();
    d.entries := entries.value;
    r := Some(d);
  }

  lemma AfterMagic(buf: Bytes)
    requires |buf| >= 8 && buf[..8] == DIRECTORY_MAGIC
    ensures ParseDirectory(buf) == ParseList(buf[8..])
  {
    hide ParseList, Take;
    TakeWhole(buf, 8);
  }

  method ReadList(c: Cursor) returns (r: Option<Entries>)
    requires c.Valid()
    modifies c
    ensures c.Valid()
    ensures var p := ParseList(old(c.Rest())); r == if p.None? then None else Some(MapOf(p.value.0))
  {
    hide ParseEntry, MapOf, U32, Repeat;
    var n :- ReadU32(c);
    r := ReadEntries(c, n);
  }

  method ReadEntries(c: Cursor, n: nat) returns (r: Option<Entries>)
    requires c.Valid()
    modifies c
    ensures c.Valid()
    ensures var p := Repeat(n, ParseEntry, old(c.Rest())); r == if p.None? then None else Some(MapOf(p.value.0))
  {
    hide ParseEntry, MapOf;
    var entries: Entries := map[];
    ghost var list: seq<Entry> := [];
    MapOfEmpty();
    for i := 0 to n
      invariant c.Valid() && Agrees(Repeat(i, ParseEntry, old(c.Rest())), Some(list), c.Rest())
      invariant entries == MapOf(list)
    {
      var e := ReadEntry(c);
      if e.None? {
        RepeatStops(i, n, ParseEntry, old(c.Rest()));
        return None;
      }
      entries := entries[e.value.name := e.value.manifest];
      MapOfSnoc(list, e.value);
      list := list + [e.value];
    }
    r := Some(entries);
  }

  method ReadEntry(c: Cursor) returns (r: Option<Entry>)
    requires c.Valid()
    modifies c
    ensures c.Valid() && Agrees(ParseEntry(old(c.Rest())), r, c.Rest())
  {
    hide Text16, U32, Take, ParseManifest;
    var name :- ReadText(c);
    var len :- ReadU32(c);
    var body :- c.TakeBytes(len);
    var m :- Decode(body);
    r := Some(Entry(name, m));
  }

  lemma MapOfEmpty()
    ensures MapOf([]) == map[]
  {}

  lemma MapOfSnoc(list: seq<Entry>, e: Entry)
    ensures MapOf(list + [e]) == MapOf(list)[e.name := e.manifest]
  {
    assert (list + [e])[..|list|] == list;
  }

  lemma TakeWhole(s: Bytes, n: nat)
    requires n <= |s|
    ensures Take(s, n) == Some((s[..n], s[n..]))
  {}

  lemma ShortDirectory(buf: Bytes)
    requires |buf| < 12 || buf[..8] != DIRECTORY_MAGIC
    ensures ParseDirectory(buf).None?
  {
    hide Repeat, ParseEntry;
  }

  /** Saving a catalog and loading it again gives the same entries. */
  method SaveAndLoad(d: Directory) returns (r: Option<Directory>)
    requires forall k :: k in d.entries ==> EntryFits(Entry(k, d.entries[k]))
    requires |d.entries| < M32
    ensures r.Some? && r.value.entries == d.entries
  {
    hide DirectoryBytes, ListsEntries, MapOf, TextFits, Encodable, Shaped, ManifestBytes;
    forall k | k in d.entries ensures Shaped(d.entries[k]) {
      assert EntryFits(Entry(k, d.entries[k]));
    }
    var b := EncodeDirectory(d);
    ghost var list :| ListsEntries(list, d.entries) && b == DirectoryBytes(list, []);
    ListFits32(list, d.entries);
    DirectoryReads(list, []);
    ListIsCatalog(list, d.entries);
    r := DecodeDirectory(b);
  }

  lemma ListFits32(list: seq<Entry>, m: Entries)
    requires ListsEntries(list, m) && |m| < M32 && forall k :: k in m ==> EntryFits(Entry(k, m[k]))
    ensures ListEncodable(list)
  {
    hide Before, EntryFits;
    var names := seq(|list|, i requires 0 <= i < |list| => list[i].name);
    forall k ensures k in names <==> k in m {
      if k in m {
        var i :| 0 <= i < |list| && list[i].name == k;
        assert names[i] == k;
      }
    }
    assert Ascending(names);
    KeyCount(names, m);
    forall i | 0 <= i < |list| ensures EntryFits(list[i]) {
      assert list[i] == Entry(list[i].name, m[list[i].name]);
    }
  }
}
