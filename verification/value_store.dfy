/** Where the current engine's replacement values come from: the properties
    file `replacements.properties` and the utility files of the utility-script
    directory. Each source becomes an insertion-ordered map (Kotlin's
    `LinkedHashMap`), the two are checked for a key they share, then merged. */
module Replacements {
  import opened Common

  /** The name of the properties file; a utility file of that name is skipped. */
  const ReplacementsFileName := "replacements.properties"

  /** A replacement's raw text and where it came from, for diagnostics. */
  datatype RichValue = RichValue(value: string, description: string)

  /** A file of a directory listing: its name and its contents. */
  datatype SourceFile = SourceFile(name: string, text: string)

  /** Kotlin's `LinkedHashMap`: a map whose keys iterate in insertion order. */
  datatype LinkedMap<V> = LinkedMap(keys: seq<string>, values: map<string, V>)
  {
    /** Every key is listed once, and the listed keys are the map's keys. */
    ghost predicate Valid()
    {
      Distinct(keys) && (forall k :: k in values <==> k in keys)
    }

    /** `put(k, v)`: a new key goes to the end, an existing key keeps its place
        and takes the new value. */
    function Put(k: string, v: V): (r: LinkedMap<V>)
      requires Valid()
      ensures r.Valid()
      ensures r.values == values[k := v]
      ensures k in values ==> r.keys == keys
      ensures k !in values ==> r.keys == keys + [k]
    {
      if k in values then LinkedMap(keys, values[k := v])
      else
        assert forall i :: 0 <= i < |keys| ==> (keys + [k])[i] == keys[i];
        LinkedMap(keys + [k], values[k := v])
    }
  }

  function EmptyMap<V>(): (r: LinkedMap<V>)
    ensures r.Valid() && r.keys == [] && r.values == map[]
  {
    LinkedMap([], map[])
  }

  /** `put` for every entry, in order. */
  function PutAll<V>(lm: LinkedMap<V>, entries: seq<(string, V)>): (r: LinkedMap<V>)
    requires lm.Valid()
    ensures r.Valid()
    decreases |entries|
  {
    if entries == [] then lm else PutAll(lm.Put(entries[0].0, entries[0].1), entries[1..])
  }

  /** The keys of some entries, in order. */
  function KeysOf<V>(es: seq<(string, V)>): (ks: seq<string>)
    ensures |ks| == |es| && forall i :: 0 <= i < |es| ==> ks[i] == es[i].0
    decreases |es|
  {
    if es == [] then [] else [es[0].0] + KeysOf(es[1..])
  }

  /** After `PutAll` a key is present exactly when it was before or some entry
      names it. */
  lemma {:induction false} PutAllMembers<V>(lm: LinkedMap<V>, entries: seq<(string, V)>)
    requires lm.Valid()
    ensures forall k :: k in PutAll(lm, entries).values <==> k in lm.values || k in KeysOf(entries)
    decreases |entries|
  {
    if entries != [] {
      PutAllMembers(lm.Put(entries[0].0, entries[0].1), entries[1..]);
      assert KeysOf(entries) == [entries[0].0] + KeysOf(entries[1..]);
    }
  }

  /** The value of a key is that of the LAST entry naming it. */
  lemma {:induction false} PutAllLast<V>(lm: LinkedMap<V>, entries: seq<(string, V)>, i: nat)
    requires lm.Valid() && i < |entries|
    requires entries[i].0 !in KeysOf(entries[i + 1..])
    ensures entries[i].0 in PutAll(lm, entries).values
    ensures PutAll(lm, entries).values[entries[i].0] == entries[i].1
    decreases |entries|
  {
    PutAllMembers(lm, entries);
    assert entries[i].0 in KeysOf(entries);
    if i > 0 {
      assert entries[1..][i - 1] == entries[i];
      assert entries[1..][i..] == entries[i + 1..];
      PutAllLast(lm.Put(entries[0].0, entries[0].1), entries[1..], i - 1);
    } else {
      assert entries[1..] == entries[i + 1..];
      PutAllUntouched(lm.Put(entries[0].0, entries[0].1), entries[1..], entries[0].0);
    }
  }

  /** A key no entry names keeps its value. */
  lemma {:induction false} PutAllUntouched<V>(lm: LinkedMap<V>, entries: seq<(string, V)>, k: string)
    requires lm.Valid() && k in lm.values && k !in KeysOf(entries)
    ensures k in PutAll(lm, entries).values && PutAll(lm, entries).values[k] == lm.values[k]
    decreases |entries|
  {
    if entries != [] {
      assert KeysOf(entries) == [entries[0].0] + KeysOf(entries[1..]);
      PutAllUntouched(lm.Put(entries[0].0, entries[0].1), entries[1..], k);
    }
  }

  /** Entries with new, distinct keys are appended in order. */
  lemma {:induction false} PutAllFresh<V>(lm: LinkedMap<V>, entries: seq<(string, V)>)
    requires lm.Valid()
    requires forall i, j :: 0 <= i < j < |entries| ==> entries[i].0 != entries[j].0
    requires forall i :: 0 <= i < |entries| ==> entries[i].0 !in lm.values
    ensures PutAll(lm, entries).keys == lm.keys + KeysOf(entries)
    decreases |entries|
  {
    if entries != [] {
      var next := lm.Put(entries[0].0, entries[0].1);
      var rest := entries[1..];
      assert forall i :: 0 <= i < |rest| ==> rest[i] == entries[i + 1];
      PutAllFresh(next, rest);
      assert KeysOf(entries) == [entries[0].0] + KeysOf(rest);
      AppendAssoc(lm.keys, [entries[0].0], KeysOf(rest));
    }
  }

  // ---------------------------------------------------------------------------
  // The two sources
  // ---------------------------------------------------------------------------

  /** The first index of `c` in `s` (`indexOf`, where `-1` becomes `None`). */
  function IndexOf(s: string, c: char): (r: Option<nat>)
    ensures r.Some? ==> r.value < |s| && s[r.value] == c
    ensures r.Some? ==> forall k :: 0 <= k < r.value ==> s[k] != c
    ensures r.None? ==> forall k :: 0 <= k < |s| ==> s[k] != c
    decreases |s|
  {
    if s == [] then None
    else if s[0] == c then Some(0)
    else match IndexOf(s[1..], c)
      case None => None
      case Some(i) => Some(i + 1)
  }

  /** A utility file's key: its name cut at the first `.`, unless there is no
      `.` or the name starts with one, in which case the whole name. */
  function FileKey(name: string): (key: string)
    ensures key <= name
    ensures key == name <==> (forall k :: 0 <= k < |name| ==> name[k] != '.') || (name != [] && name[0] == '.')
    ensures key != name ==> key != [] && name[|key|] == '.' && forall k :: 0 <= k < |key| ==> key[k] != '.'
  {
    var end := match IndexOf(name, '.') case Some(i) => if i > 0 then i else |name| case None => |name|;
    name[..end]
  }

  /** `init.gradle` is keyed `init`. */
  lemma FileKeyCutsAtDot()
    ensures FileKey("init.gradle") == "init"
  {
    assert IndexOf("init.gradle", '.') == Some(4);
  }

  /** `.x` keeps its whole name: a `.` at index 0 does not cut. */
  lemma FileKeyLeadingDot()
    ensures FileKey(".x") == ".x"
  {
    assert IndexOf(".x", '.') == Some(0);
  }

  /** The entries `associate` builds from the utility files, in listing order:
      every file but `replacements.properties`, keyed by `FileKey`. */
  function FileEntries(files: seq<SourceFile>): (es: seq<(string, RichValue)>)
    ensures |es| <= |files|
    decreases |files|
  {
    if files == [] then []
    else
      var rest := FileEntries(files[1..]);
      if files[0].name == ReplacementsFileName then rest
      else [(FileKey(files[0].name), RichValue(files[0].text, "include file " + files[0].name))] + rest
  }

  /** The utility files' keys are the keys of the files other than the
      properties file. */
  lemma {:induction false} FileEntryKeys(files: seq<SourceFile>, k: string)
    ensures k in KeysOf(FileEntries(files)) <==>
              exists i :: 0 <= i < |files| && files[i].name != ReplacementsFileName && FileKey(files[i].name) == k
    decreases |files|
  {
    if files != [] {
      FileEntryKeys(files[1..], k);
      var rest := FileEntries(files[1..]);
      if files[0].name != ReplacementsFileName {
        assert KeysOf(FileEntries(files)) == [FileKey(files[0].name)] + KeysOf(rest);
      }
      if exists i :: 1 <= i < |files| && files[i].name != ReplacementsFileName && FileKey(files[i].name) == k {
        var i :| 1 <= i < |files| && files[i].name != ReplacementsFileName && FileKey(files[i].name) == k;
        assert files[1..][i - 1] == files[i];
      }
      if exists i :: 0 <= i < |files| - 1 && files[1..][i].name != ReplacementsFileName && FileKey(files[1..][i].name) == k {
        var i :| 0 <= i < |files| - 1 && files[1..][i].name != ReplacementsFileName && FileKey(files[1..][i].name) == k;
        assert files[1..][i] == files[i + 1];
      }
    }
  }

  /** `loadReplacementsFromFiles`: nothing when the directory is not
      configured or cannot be listed, otherwise the utility files associated by
      key; of several files with one key the one listed last wins. */
  function LoadFromFiles(listing: Option<seq<SourceFile>>): (r: LinkedMap<RichValue>)
    ensures r.Valid()
  {
    match listing
    case None => EmptyMap()
    case Some(files) => PutAll(EmptyMap(), FileEntries(files))
  }

  /** `loadReplacementsFromProperties`: nothing when there is no properties
      file, otherwise every property (in the order the properties are given)
      described by the file's name. */
  function LoadFromProperties(properties: Option<seq<(string, string)>>, fileName: string): (r: LinkedMap<RichValue>)
    ensures r.Valid()
  {
    match properties
    case None => EmptyMap()
    case Some(ps) => PutAll(EmptyMap(), PropertyEntries(ps, fileName))
  }

  function PropertyEntries(ps: seq<(string, string)>, fileName: string): (es: seq<(string, RichValue)>)
    ensures |es| == |ps|
    ensures forall i :: 0 <= i < |ps| ==> es[i] == (ps[i].0, RichValue(ps[i].1, "property from file " + fileName))
    decreases |ps|
  {
    if ps == [] then []
    else [(ps[0].0, RichValue(ps[0].1, "property from file " + fileName))] + PropertyEntries(ps[1..], fileName)
  }

  /** The properties file loads into exactly its properties: nothing without
      a file; with one, a key is present exactly when some property names it,
      and it holds the last such property's value, described by the file's
      name. */
  lemma LoadFromPropertiesContents(properties: Option<seq<(string, string)>>, fileName: string)
    ensures properties.None? ==> LoadFromProperties(properties, fileName) == EmptyMap()
    ensures properties.Some? ==>
              forall k :: k in LoadFromProperties(properties, fileName).values <==> k in KeysOf(properties.value)
    ensures properties.Some? ==>
              forall i :: 0 <= i < |properties.value| && properties.value[i].0 !in KeysOf(properties.value[i + 1..]) ==>
                properties.value[i].0 in LoadFromProperties(properties, fileName).values
                && LoadFromProperties(properties, fileName).values[properties.value[i].0]
                   == RichValue(properties.value[i].1, "property from file " + fileName)
  {
    if properties.Some? {
      var ps := properties.value;
      var es := PropertyEntries(ps, fileName);
      assert KeysOf(es) == KeysOf(ps);
      PutAllMembers(EmptyMap(), es);
      forall i | 0 <= i < |ps| && ps[i].0 !in KeysOf(ps[i + 1..])
        ensures es[i].0 in PutAll(EmptyMap(), es).values && PutAll(EmptyMap(), es).values[es[i].0] == es[i].1
      {
        assert KeysOf(es[i + 1..]) == KeysOf(ps[i + 1..]);
        PutAllLast(EmptyMap(), es, i);
      }
    }
  }

  /** With distinct property keys, as a `Properties` table has, the keys keep
      the order in which the properties are given. */
  lemma LoadFromPropertiesOrder(ps: seq<(string, string)>, fileName: string)
    requires Distinct(KeysOf(ps))
    ensures LoadFromProperties(Some(ps), fileName).keys == KeysOf(ps)
  {
    var es := PropertyEntries(ps, fileName);
    assert KeysOf(es) == KeysOf(ps);
    forall i, j | 0 <= i < j < |es| ensures es[i].0 != es[j].0 {
      assert KeysOf(ps)[i] == es[i].0 && KeysOf(ps)[j] == es[j].0;
    }
    PutAllFresh(EmptyMap(), es);
  }

  /** A utility directory's keys: one per file other than the properties
      file, and the file listed LAST among those sharing a key provides its
      value. */
  lemma LoadFromFilesLastWins(files: seq<SourceFile>, i: nat)
    requires i < |files| && files[i].name != ReplacementsFileName
    requires forall j :: i < j < |files| && files[j].name != ReplacementsFileName ==> FileKey(files[j].name) != FileKey(files[i].name)
    ensures FileKey(files[i].name) in LoadFromFiles(Some(files)).values
    ensures LoadFromFiles(Some(files)).values[FileKey(files[i].name)]
            == RichValue(files[i].text, "include file " + files[i].name)
  {
    var es := FileEntries(files);
    var pos := EntryIndex(files, i);
    FileEntryKeys(files[i + 1..], FileKey(files[i].name));
    assert es[pos + 1..] == FileEntries(files[i + 1..]) by { EntriesAfter(files, i); }
    var later := files[i + 1..];
    forall j | 0 <= j < |later| && later[j].name != ReplacementsFileName
      ensures FileKey(later[j].name) != FileKey(files[i].name)
    {
      assert later[j] == files[i + 1 + j];
    }
    PutAllLast(EmptyMap(), es, pos);
  }

  /** Where the entry of the `i`-th file sits among the entries. */
  function EntryIndex(files: seq<SourceFile>, i: nat): (pos: nat)
    requires i < |files| && files[i].name != ReplacementsFileName
    ensures pos < |FileEntries(files)|
    ensures FileEntries(files)[pos] == (FileKey(files[i].name), RichValue(files[i].text, "include file " + files[i].name))
    decreases i
  {
    if i == 0 then 0
    else
      var pos := EntryIndex(files[1..], i - 1);
      if files[0].name == ReplacementsFileName then pos else pos + 1
  }

  /** The entries after the `i`-th file's are those of the later files. */
  lemma {:induction false} EntriesAfter(files: seq<SourceFile>, i: nat)
    requires i < |files| && files[i].name != ReplacementsFileName
    ensures FileEntries(files)[EntryIndex(files, i) + 1..] == FileEntries(files[i + 1..])
    decreases i
  {
    if i > 0 {
      EntriesAfter(files[1..], i - 1);
      assert files[1..][i - 1 + 1..] == files[i + 1..];
    }
  }

  // ---------------------------------------------------------------------------
  // The duplicate check and the merge
  // ---------------------------------------------------------------------------

  /** The failure of `verifyNoDuplicateReplacements` for `key`. */
  function DuplicateMessage(key: string, propertiesPath: string, description: string): string
  {
    "there is property '" + key + "' in replacements file " + propertiesPath + " and also there is an "
    + description + ". Can't decide which one should be applied"
  }

  /** The first property key, in iteration order, that a utility file also
      provides. */
  function FirstShared(propertyKeys: seq<string>, fromFiles: LinkedMap<RichValue>): (r: Option<nat>)
    ensures r.None? ==> forall i :: 0 <= i < |propertyKeys| ==> propertyKeys[i] !in fromFiles.values
    ensures r.Some? ==> r.value < |propertyKeys| && propertyKeys[r.value] in fromFiles.values
    ensures r.Some? ==> forall j :: 0 <= j < r.value ==> propertyKeys[j] !in fromFiles.values
    decreases |propertyKeys|
  {
    if propertyKeys == [] then None
    else if propertyKeys[0] in fromFiles.values then Some(0)
    else match FirstShared(propertyKeys[1..], fromFiles)
      case None => None
      case Some(i) => Some(i + 1)
  }

  /** `verifyNoDuplicateReplacements`: the check fails, naming the first
      property key that a utility file also provides, the properties file and
      that file. */
  function DuplicateError(propertyKeys: seq<string>, propertiesPath: string, fromFiles: LinkedMap<RichValue>): (r: Option<string>)
    ensures r.None? <==> forall i :: 0 <= i < |propertyKeys| ==> propertyKeys[i] !in fromFiles.values
  {
    match FirstShared(propertyKeys, fromFiles)
    case None => None
    case Some(i) =>
      var key := propertyKeys[i];
      Some(DuplicateMessage(key, propertiesPath, fromFiles.values[key].description))
  }

  /** The entries of a linked map, in key order. */
  function Entries<V>(lm: LinkedMap<V>): (es: seq<(string, V)>)
    requires lm.Valid()
    ensures |es| == |lm.keys|
    ensures forall i :: 0 <= i < |es| ==> es[i] == (lm.keys[i], lm.values[lm.keys[i]])
  {
    seq(|lm.keys|, i requires 0 <= i < |lm.keys| && lm.Valid() => (lm.keys[i], lm.values[lm.keys[i]]))
  }

  /** `properties + files`: the files' entries put into the properties' map. */
  function Merge<V>(first: LinkedMap<V>, second: LinkedMap<V>): (r: LinkedMap<V>)
    requires first.Valid() && second.Valid()
    ensures r.Valid()
  {
    PutAll(first, Entries(second))
  }

  /** Merging two maps without a common key keeps every key and value of both,
      the first map's keys first. */
  lemma MergeDisjoint<V>(first: LinkedMap<V>, second: LinkedMap<V>)
    requires first.Valid() && second.Valid()
    requires forall k :: k in first.values ==> k !in second.values
    ensures Merge(first, second).keys == first.keys + second.keys
    ensures Merge(first, second).values == first.values + second.values
  {
    MergeKeysDisjoint(first, second);
    MergeValues(first, second);
    var r := Merge(first, second).values;
    assert forall k :: k in r <==> k in first.values + second.values;
  }

  lemma MergeKeysDisjoint<V>(first: LinkedMap<V>, second: LinkedMap<V>)
    requires first.Valid() && second.Valid()
    requires forall k :: k in first.values ==> k !in second.values
    ensures Merge(first, second).keys == first.keys + second.keys
  {
    var es := Entries(second);
    assert KeysOf(es) == second.keys;
    PutAllFresh(first, es);
  }

  lemma MergeValues<V>(first: LinkedMap<V>, second: LinkedMap<V>)
    requires first.Valid() && second.Valid()
    requires forall k :: k in first.values ==> k !in second.values
    ensures forall k :: k in Merge(first, second).values <==> k in first.values || k in second.values
    ensures forall k :: k in first.values ==> Merge(first, second).values[k] == first.values[k]
    ensures forall k :: k in second.values ==> Merge(first, second).values[k] == second.values[k]
  {
    var r := Merge(first, second).values;
    var es := Entries(second);
    assert KeysOf(es) == second.keys;
    PutAllMembers(first, es);
    forall k | k in second.values ensures r[k] == second.values[k] {
      var i :| 0 <= i < |second.keys| && second.keys[i] == k;
      SecondValue(first, second, i);
    }
    forall k | k in first.values ensures r[k] == first.values[k] {
      PutAllUntouched(first, es, k);
    }
  }

  lemma SecondValue<V>(first: LinkedMap<V>, second: LinkedMap<V>, i: nat)
    requires first.Valid() && second.Valid() && i < |second.keys|
    ensures second.keys[i] in Merge(first, second).values
    ensures Merge(first, second).values[second.keys[i]] == second.values[second.keys[i]]
  {
    var es := Entries(second);
    var later := KeysOf(es[i + 1..]);
    forall j | 0 <= j < |later| ensures later[j] != second.keys[i] {
      assert later[j] == second.keys[i + 1 + j];
    }
    PutAllLast(first, es, i);
  }
}
