/**
 * The chart downloader's bookkeeping: the pair list it is constructed with,
 * and the cleanup pass over its download directory that deletes every
 * non-PNG file and renames each downloaded PNG to `heatmap_<PAIR>.png`.
 *
 * The directory is a map from entry names to entries; `os.listdir`'s order is
 * a parameter, since the cleanup's outcome on colliding names depends on it.
 */
module DataChart {
  import opened PyCore

  /** The `pair_list` argument: one pair, or a list of pairs. */
  datatype PairListArg = OnePair(pair: string) | ManyPairs(pairs: seq<string>)

  /** A single pair is wrapped into a one-element list; a list is kept as given. */
  function NormalisePairList(arg: PairListArg): (r: seq<string>)
    ensures arg.OnePair? ==> r == [arg.pair]
    ensures arg.ManyPairs? ==> r == arg.pairs
  {
    match arg
    case OnePair(pair) => [pair]
    case ManyPairs(pairs) => pairs
  }

  /** Normalising is idempotent: a normalised list passed again comes back unchanged. */
  lemma NormalisedListIsStable(arg: PairListArg)
    ensures NormalisePairList(ManyPairs(NormalisePairList(arg))) == NormalisePairList(arg)
    ensures |NormalisePairList(arg)| >= 1 || arg == ManyPairs([])
  {
  }

  newtype Byte = b: int | 0 <= b < 256

  /** A directory entry: a sub-directory, or a file with its bytes. */
  datatype Entry = Folder | File(content: seq<Byte>)

  /** The marker of a name the cleanup has already produced. */
  const Heatmap: string := "heatmap"

  /** `filename.lower().endswith(".png")`. */
  predicate IsPng(name: string) {
    EndsWith(Lower(name), ".png")
  }

  /** The test ignores case: a name is a PNG name when its last four characters, lower-cased, spell `.png`. */
  lemma IsPngIgnoresCase(name: string)
    ensures IsPng(name) <==> |name| >= 4 && forall k :: 0 <= k < 4 ==> LowerChar(name[|name| - 4 + k]) == ".png"[k]
  {
  }

  /**
   * The name a PNG is renamed to, or None when it keeps its name: only a
   * name with an underscore and without "heatmap" is renamed, to
   * `heatmap_<P>.png` where P is the second underscore-separated field up to
   * its first space.
   */
  function RenamedName(filename: string): (r: Option<string>)
    ensures r.Some? <==> '_' in filename && !Contains(filename, Heatmap)
    ensures r.Some? ==> var t := r.value;
            && |t| >= 12 && t[..8] == "heatmap_" && t[|t| - 4..] == ".png"
            && '_' !in t[8..|t| - 4] && ' ' !in t[8..|t| - 4]
  {
    if '_' in filename && !Contains(filename, Heatmap) then
      var parts := Split(filename, '_');
      SplitAtSeparator(filename, '_');
      if |parts| > 1 then
        var pair := Split(parts[1], ' ')[0];
        SplitHeadIsPrefix(parts[1], ' ');
        var t := "heatmap_" + pair + ".png";
        assert t[8..|t| - 4] == pair;
        Some(t)
      else None
    else None
  }

  /** A new name is a PNG name carrying the heatmap marker, so it is never renamed again, and differs from the old name. */
  lemma RenamedNameIsFinal(filename: string)
    requires RenamedName(filename).Some?
    ensures var t := RenamedName(filename).value;
            && Contains(t, Heatmap) && '_' in t && IsPng(t)
            && RenamedName(t).None? && t != filename
  {
    var t := RenamedName(filename).value;
    assert t[..7] == Heatmap;
    ContainsAt(t, Heatmap, 0);
    assert t[7] == '_';
    var n := |t|;
    var low := Lower(t);
    assert t[n - 4..] == ".png";
    forall j | 0 <= j < 4
      ensures low[n - 4..][j] == ".png"[j]
    {
      assert low[n - 4 + j] == LowerChar(t[n - 4 + j]);
      assert t[n - 4 + j] == t[n - 4..][j];
    }
    assert low[n - 4..] == ".png";
  }

  /** The new name from the fields of the split, stated once for the lemmas below. */
  lemma RenamedNameFromFields(filename: string, second: string, pair: string)
    requires '_' in filename && !Contains(filename, Heatmap)
    requires |Split(filename, '_')| >= 2 && Split(filename, '_')[1] == second
    requires Split(second, ' ')[0] == pair
    ensures RenamedName(filename) == Some("heatmap_" + pair + ".png")
  {
  }

  /**
   * Renaming keeps the pair field: `<prefix>_<pair> <rest>` becomes
   * `heatmap_<pair>.png`, whatever follows the first space (further
   * underscores included).
   */
  lemma RenameKeepsPairField(name: string, prefix: string, pair: string, rest: string)
    requires name == prefix + "_" + pair + " " + rest
    requires '_' !in prefix && '_' !in pair && ' ' !in pair
    requires !Contains(name, Heatmap)
    ensures RenamedName(name) == Some("heatmap_" + pair + ".png")
  {
    var tail := pair + [' '] + rest;
    assert name == prefix + ['_'] + tail;
    assert '_' in name by { assert name[|prefix|] == '_'; }
    SplitAfterHead(prefix, '_', tail);
    SplitAtSeparator(name, '_');
    PairBeforeSpace(pair, rest);
    RenamedNameFromFields(name, Split(tail, '_')[0], pair);
  }

  /** The field that starts with `<pair> ` and ends at the next underscore is cut back to `<pair>` at its space. */
  lemma PairBeforeSpace(pair: string, rest: string)
    requires '_' !in pair && ' ' !in pair
    ensures Split(Split(pair + [' '] + rest, '_')[0], ' ')[0] == pair
  {
    var second := Split(pair + [' '] + rest, '_')[0];
    assert second == pair + [' '] + Split(rest, '_')[0] by {
      assert pair + [' '] + rest == pair + ([' '] + rest);
      SplitHeadAppend(pair, '_', [' '] + rest);
      assert ([' '] + rest)[1..] == rest;
    }
    SplitAfterHead(pair, ' ', Split(rest, '_')[0]);
  }

  /**
   * A second field without a space that ends at another underscore is kept
   * whole: `<prefix>_<field>_<rest>` becomes `heatmap_<field>.png`.
   */
  lemma RenameStopsAtNextUnderscore(name: string, prefix: string, field: string, rest: string)
    requires name == prefix + "_" + field + "_" + rest
    requires '_' !in prefix && '_' !in field && ' ' !in field
    requires !Contains(name, Heatmap)
    ensures RenamedName(name) == Some("heatmap_" + field + ".png")
  {
    var tail := field + ['_'] + rest;
    assert name == prefix + ['_'] + tail;
    assert '_' in name by { assert name[|prefix|] == '_'; }
    assert Split(name, '_') == [prefix, field] + Split(rest, '_') by {
      SplitAfterHead(prefix, '_', tail);
      SplitAfterHead(field, '_', rest);
    }
    SplitNoSeparator(field, ' ');
    RenamedNameFromFields(name, field, field);
  }

  /**
   * Without a space after the pair field, the field runs to the end of the
   * name, extension included: `<prefix>_<field>` becomes
   * `heatmap_<field>.png`, so `X_BTC.png` becomes `heatmap_BTC.png.png`.
   */
  lemma RenameWithoutSpaceKeepsExtension(name: string, prefix: string, field: string)
    requires name == prefix + "_" + field
    requires '_' !in prefix && '_' !in field && ' ' !in field
    requires !Contains(name, Heatmap)
    ensures RenamedName(name) == Some("heatmap_" + field + ".png")
  {
    assert name == prefix + ['_'] + field;
    assert '_' in name by { assert name[|prefix|] == '_'; }
    assert Split(name, '_') == [prefix, field] by {
      SplitAfterHead(prefix, '_', field);
      SplitNoSeparator(field, '_');
    }
    SplitNoSeparator(field, ' ');
    RenamedNameFromFields(name, field, field);
  }

  lemma LacksMarker(name: string)
    requires 'h' !in name
    ensures !Contains(name, Heatmap)
  {
    NotContainsMissingChar(name, Heatmap, 'h');
  }

  lemma LiteralNames()
    ensures "heatmap_" + "BTC" + ".png" == "heatmap_BTC.png"
    ensures "heatmap_" + "BTC.png" + ".png" == "heatmap_BTC.png.png"
  {
  }

  /** A downloaded chart named with its pair and a counter keeps only the pair. */
  lemma RenameExampleWithCounter(name: string)
    requires name == "X_BTC 1.png"
    ensures RenamedName(name) == Some("heatmap_BTC.png")
  {
    LacksMarker(name);
    RenameKeepsPairField(name, "X", "BTC", "1.png");
    LiteralNames();
  }

  /** Without a counter the extension stays inside the pair field and is doubled. */
  lemma RenameExampleDoublesExtension(name: string)
    requires name == "X_BTC.png"
    ensures RenamedName(name) == Some("heatmap_BTC.png.png")
  {
    LacksMarker(name);
    RenameWithoutSpaceKeepsExtension(name, "X", "BTC.png");
    LiteralNames();
  }

  /** Underscores after the counter are dropped with the rest of the name. */
  lemma RenameExampleCounterThenUnderscore(name: string)
    requires name == "X_BTC 1_2.png"
    ensures RenamedName(name) == Some("heatmap_BTC.png")
  {
    LacksMarker(name);
    RenameKeepsPairField(name, "X", "BTC", "1_2.png");
    LiteralNames();
  }

  /** A further underscore ends the pair field just as a space does. */
  lemma RenameExampleSecondUnderscore(name: string)
    requires name == "X_BTC_1.png"
    ensures RenamedName(name) == Some("heatmap_BTC.png")
  {
    LacksMarker(name);
    RenameStopsAtNextUnderscore(name, "X", "BTC", "1.png");
    LiteralNames();
  }

  /** Names already carrying the marker, and names without an underscore, are kept. */
  lemma RenameExamplesKept()
    ensures RenamedName("heatmap_BTC.png") == None
    ensures RenamedName("BTC.png") == None
  {
    assert "heatmap_BTC.png"[..7] == Heatmap;
    ContainsAt("heatmap_BTC.png", Heatmap, 0);
    assert '_' !in "BTC.png";
  }

  /** The entry, if any, that `name` would be renamed onto. */
  function Target(name: string): Option<string> {
    if IsPng(name) then RenamedName(name) else None
  }

  /**
   * One iteration of the cleanup loop for `name`. A directory is skipped; a
   * non-PNG is unlinked (failing harmlessly if it is missing); a PNG with a
   * new name first has any existing file of that name unlinked and is then
   * moved onto it. Unlinking a directory fails, which abandons the rename; a
   * missing source makes the rename fail after the target was removed.
   */
  function CleanEntry(entries: map<string, Entry>, name: string): (r: map<string, Entry>)
    ensures forall x :: x in r ==> x in entries || Some(x) == Target(name)
    ensures forall x :: (x in entries && entries[x].Folder?) <==> (x in r && r[x].Folder?)
    ensures name in r ==> r == entries
    ensures forall x :: x != name && Some(x) != Target(name) ==>
              (x in r <==> x in entries) && (x in r ==> r[x] == entries[x])
    ensures Target(name).Some? && name in entries && entries[name].File?
            && !(Target(name).value in entries && entries[Target(name).value].Folder?)
            ==> r == (entries - {name})[Target(name).value := entries[name]]
    ensures !IsPng(name) && !(name in entries && entries[name].Folder?) ==> r == entries - {name}
    ensures IsPng(name) && RenamedName(name).None? ==> r == entries
    ensures Target(name).Some? && Target(name).value in entries && entries[Target(name).value].Folder?
            ==> r == entries
  {
    if name in entries && entries[name].Folder? then entries
    else match Target(name)
      case None => if IsPng(name) then entries else entries - {name}
      case Some(target) =>
        TargetIsNewName(name);
        if target in entries && entries[target].Folder? then entries
        else
          var cleared := entries - {target};
          if name in cleared then (cleared - {name})[target := cleared[name]] else cleared
  }

  /** CleanEntry branch by branch, in the order the loop body tests them. */
  lemma CleanEntryCases(entries: map<string, Entry>, name: string)
    ensures name in entries && entries[name].Folder? ==> CleanEntry(entries, name) == entries
    ensures !(name in entries && entries[name].Folder?) && !IsPng(name) ==> CleanEntry(entries, name) == entries - {name}
    ensures !(name in entries && entries[name].Folder?) && IsPng(name) ==>
              match RenamedName(name)
              case None => CleanEntry(entries, name) == entries
              case Some(target) =>
                if target in entries && entries[target].Folder? then CleanEntry(entries, name) == entries
                else
                  var cleared := entries - {target};
                  CleanEntry(entries, name)
                  == if name in cleared && cleared[name].File? then (cleared - {name})[target := cleared[name]] else cleared
  {
  }

  /** A name with a target is a PNG name, and its target is a different name. */
  lemma TargetIsNewName(name: string)
    requires Target(name).Some?
    ensures IsPng(name) && Target(name) == RenamedName(name) && Target(name).value != name
  {
    RenamedNameIsFinal(name);
  }

  /** The whole cleanup pass over the names in `listing`, in that order; directories are never created, removed or replaced. */
  function CleanAll(entries: map<string, Entry>, listing: seq<string>): (r: map<string, Entry>)
    ensures forall x :: (x in entries && entries[x].Folder?) <==> (x in r && r[x].Folder?)
    decreases |listing|
  {
    if listing == [] then entries
    else CleanEntry(CleanAll(entries, listing[..|listing| - 1]), listing[|listing| - 1])
  }

  lemma CleanAllStep(entries: map<string, Entry>, listing: seq<string>, i: nat)
    requires i < |listing|
    ensures CleanAll(entries, listing[..i + 1]) == CleanEntry(CleanAll(entries, listing[..i]), listing[i])
  {
    assert listing[..i + 1][..i] == listing[..i];
  }

  /** `os.listdir` of the directory: every entry's name, each once. */
  ghost predicate ListsDirectory(listing: seq<string>, entries: map<string, Entry>) {
    && (forall a, b :: 0 <= a < b < |listing| ==> listing[a] != listing[b])
    && (forall x :: x in entries <==> x in listing)
  }

  /** A file the cleanup leaves where it is: a PNG with no new name, or whose new name is taken by a directory. */
  predicate Settled(entries: map<string, Entry>, x: string) {
    IsPng(x) && match RenamedName(x)
      case None => true
      case Some(t) => t in entries && entries[t].Folder?
  }

  ghost predicate AllSettled(entries: map<string, Entry>) {
    forall x :: x in entries && entries[x].File? ==> Settled(entries, x)
  }

  /** A file of the original directory that the pass moves to its new name. */
  predicate Renamable(entries: map<string, Entry>, x: string) {
    && x in entries && entries[x].File? && IsPng(x) && RenamedName(x).Some?
    && !(RenamedName(x).value in entries && entries[RenamedName(x).value].Folder?)
  }

  /** A PNG without an underscore keeps its name and bytes. */
  lemma {:induction false} CleanupKeepsPlainPngs(entries: map<string, Entry>, listing: seq<string>, x: string)
    requires x in entries && entries[x].File? && IsPng(x) && '_' !in x
    ensures x in CleanAll(entries, listing) && CleanAll(entries, listing)[x] == entries[x]
    decreases |listing|
  {
    if listing != [] {
      var name := listing[|listing| - 1];
      CleanupKeepsPlainPngs(entries, listing[..|listing| - 1], x);
      if Target(name).Some? {
        RenamedNameIsFinal(name);
      }
    }
  }

  /** Every name the pass creates is a heatmap PNG name. */
  lemma {:induction false} CleanupCreatesOnlyHeatmapNames(entries: map<string, Entry>, listing: seq<string>)
    ensures forall x :: x in CleanAll(entries, listing) && x !in entries ==> IsPng(x) && Contains(x, Heatmap)
    decreases |listing|
  {
    if listing != [] {
      var name := listing[|listing| - 1];
      CleanupCreatesOnlyHeatmapNames(entries, listing[..|listing| - 1]);
      if Target(name).Some? {
        RenamedNameIsFinal(name);
      }
    }
  }

  /** What holds after the first `i` names of a full listing have been processed. */
  ghost predicate PassInvariant(entries: map<string, Entry>, listing: seq<string>, i: nat, cur: map<string, Entry>)
    requires i <= |listing|
  {
    // names still to come that the pass never renames onto are untouched
    && (forall k :: i <= k < |listing| && listing[k] in entries && !Contains(listing[k], Heatmap) ==>
          listing[k] in cur && cur[listing[k]] == entries[listing[k]])
    // every file is either still to come or settled
    && (forall x :: x in cur && cur[x].File? ==> x in listing[i..] || Settled(cur, x))
    // every processed renamable file has moved to its new name
    && (forall k :: 0 <= k < i && Renamable(entries, listing[k]) ==>
          listing[k] !in cur && RenamedName(listing[k]).value in cur
          && cur[RenamedName(listing[k]).value].File?)
    // heatmap PNGs stay files
    && (forall x :: x in entries && entries[x].File? && IsPng(x) && Contains(x, Heatmap) ==>
          x in cur && cur[x].File?)
  }

  lemma PassStep(entries: map<string, Entry>, listing: seq<string>, i: nat, cur: map<string, Entry>)
    requires ListsDirectory(listing, entries)
    requires i < |listing|
    requires forall x :: (x in entries && entries[x].Folder?) <==> (x in cur && cur[x].Folder?)
    requires PassInvariant(entries, listing, i, cur)
    ensures PassInvariant(entries, listing, i + 1, CleanEntry(cur, listing[i]))
  {
    var name := listing[i];
    var nxt := CleanEntry(cur, name);
    assert listing[i..] == [name] + listing[i + 1..];
    if Target(name).Some? {
      RenamedNameIsFinal(name);
    }
    // untouched names
    forall k | i + 1 <= k < |listing| && listing[k] in entries && !Contains(listing[k], Heatmap)
      ensures listing[k] in nxt && nxt[listing[k]] == entries[listing[k]]
    {
      assert listing[k] != name;
    }
    // settled or pending
    forall x | x in nxt && nxt[x].File?
      ensures x in listing[i + 1..] || Settled(nxt, x)
    {
      if x == name {
        assert nxt == cur;
      } else if Some(x) == Target(name) {
      } else {
        assert x in cur && cur[x] == nxt[x];
        if x in listing[i..] {
        } else {
          assert Settled(cur, x);
          if RenamedName(x).Some? {
            var t := RenamedName(x).value;
            assert t in cur && cur[t].Folder?;
          }
        }
      }
    }
    // renamed files
    forall k | 0 <= k < i + 1 && Renamable(entries, listing[k])
      ensures listing[k] !in nxt && RenamedName(listing[k]).value in nxt
              && nxt[RenamedName(listing[k]).value].File?
    {
      var x := listing[k];
      RenamedNameIsFinal(x);
      var t := RenamedName(x).value;
      if k == i {
        assert x in cur && cur[x] == entries[x];
      } else {
        assert x != name;
        if Some(t) == Target(name) {
          assert name in listing[i..];
          assert name in cur && cur[name] == entries[name];
        }
      }
    }
    // heatmap files
    forall x | x in entries && entries[x].File? && IsPng(x) && Contains(x, Heatmap)
      ensures x in nxt && nxt[x].File?
    {
      if Some(x) == Target(name) && x != name {
        assert name in cur && cur[name] == entries[name];
      }
    }
  }

  lemma {:induction false} Pass(entries: map<string, Entry>, listing: seq<string>, i: nat)
    requires ListsDirectory(listing, entries)
    requires i <= |listing|
    ensures PassInvariant(entries, listing, i, CleanAll(entries, listing[..i]))
    decreases i
  {
    if i == 0 {
      assert listing[..0] == [];
    } else {
      Pass(entries, listing, i - 1);
      PassStep(entries, listing, i - 1, CleanAll(entries, listing[..i - 1]));
      CleanAllStep(entries, listing, i - 1);
    }
  }

  /** After a pass over the whole directory, every remaining file is a PNG. */
  lemma CleanupLeavesOnlyPngs(entries: map<string, Entry>, listing: seq<string>)
    requires ListsDirectory(listing, entries)
    ensures forall x :: x in CleanAll(entries, listing) && CleanAll(entries, listing)[x].File? ==> IsPng(x)
  {
    Pass(entries, listing, |listing|);
    assert listing[..|listing|] == listing;
  }

  /**
   * After a pass over the whole directory, each renamable PNG is gone from its
   * old name and a file stands at its new one (its own bytes, unless a later
   * file with the same new name replaced them).
   */
  lemma CleanupRenamesPngs(entries: map<string, Entry>, listing: seq<string>, x: string)
    requires ListsDirectory(listing, entries)
    requires Renamable(entries, x)
    ensures x !in CleanAll(entries, listing)
    ensures RenamedName(x).value in CleanAll(entries, listing)
    ensures CleanAll(entries, listing)[RenamedName(x).value].File?
  {
    Pass(entries, listing, |listing|);
    assert listing[..|listing|] == listing;
    var k :| 0 <= k < |listing| && listing[k] == x;
  }

  /** Files already carrying the heatmap marker survive the pass as files. */
  lemma CleanupKeepsHeatmapPngs(entries: map<string, Entry>, listing: seq<string>, x: string)
    requires ListsDirectory(listing, entries)
    requires x in entries && entries[x].File? && IsPng(x) && Contains(x, Heatmap)
    ensures x in CleanAll(entries, listing) && CleanAll(entries, listing)[x].File?
  {
    Pass(entries, listing, |listing|);
    assert listing[..|listing|] == listing;
  }

  /** After a pass over the whole directory, no file is left for a further pass to touch. */
  lemma CleanupSettles(entries: map<string, Entry>, listing: seq<string>)
    requires ListsDirectory(listing, entries)
    ensures AllSettled(CleanAll(entries, listing))
  {
    Pass(entries, listing, |listing|);
    assert listing[..|listing|] == listing;
  }

  /** A pass over names of a settled directory changes nothing. */
  lemma {:induction false} SettledIsFixedPoint(entries: map<string, Entry>, listing: seq<string>)
    requires AllSettled(entries)
    requires forall k :: 0 <= k < |listing| ==> listing[k] in entries
    ensures CleanAll(entries, listing) == entries
    decreases |listing|
  {
    if listing != [] {
      SettledIsFixedPoint(entries, listing[..|listing| - 1]);
      var name := listing[|listing| - 1];
      assert name in entries;
    }
  }

  /** Cleaning twice is cleaning once, whatever order the second listing has. */
  lemma CleanupIsIdempotent(entries: map<string, Entry>, first: seq<string>, second: seq<string>)
    requires ListsDirectory(first, entries)
    requires ListsDirectory(second, CleanAll(entries, first))
    ensures CleanAll(CleanAll(entries, first), second) == CleanAll(entries, first)
  {
    CleanupSettles(entries, first);
    SettledIsFixedPoint(CleanAll(entries, first), second);
  }

  /** The download directory, whose entries the cleanup changes in place. */
  class Directory {
    var entries: map<string, Entry>

    constructor (entries: map<string, Entry>)
      ensures this.entries == entries
    {
      this.entries := entries;
    }

    /** `os.path.isdir`. */
    function IsDir(name: string): (r: bool)
      reads this
      ensures r ==> name in entries && CleanEntry(entries, name) == entries
    {
      name in entries && entries[name].Folder?
    }

    /** `os.path.exists`. */
    function Exists(name: string): (r: bool)
      reads this
      ensures r <==> name in entries
      ensures !r ==> !IsDir(name)
    {
      name in entries
    }

    /** `os.unlink`: removes a file; on a directory or a missing name it raises, reported as `ok == false`. */
    method Unlink(name: string) returns (ok: bool)
      modifies this
      ensures ok <==> old(name in entries && entries[name].File?)
      ensures entries == if ok then old(entries) - {name} else old(entries)
    {
      ok := name in entries && entries[name].File?;
      if ok {
        entries := entries - {name};
      }
    }

    /** `os.rename` of a file: raises on a missing source or a directory target. */
    method Rename(source: string, target: string) returns (ok: bool)
      modifies this
      ensures ok <==> old(source in entries && entries[source].File?
                          && !(target in entries && entries[target].Folder?))
      ensures entries == if ok then (old(entries) - {source})[target := old(entries)[source]] else old(entries)
    {
      ok := source in entries && entries[source].File? && !(target in entries && entries[target].Folder?);
      if ok {
        entries := (entries - {source})[target := entries[source]];
      }
    }
  }

  /** The part of the chart downloader this model keeps: its pairs and its download directory. */
  class Chart {
    const pairList: seq<string>
    const downloadDir: Directory

    constructor (pairList: PairListArg, downloadDir: Directory)
      ensures this.pairList == NormalisePairList(pairList)
      ensures this.downloadDir == downloadDir
    {
      this.pairList := NormalisePairList(pairList);
      this.downloadDir := downloadDir;
    }

    /** `clear_download_directory`, visiting the names in `listing` (the order `os.listdir` returned). */
    method ClearDownloadDirectory(listing: seq<string>)
      modifies downloadDir
      ensures downloadDir.entries == CleanAll(old(downloadDir.entries), listing)
    {
      var dir := downloadDir;
      ghost var initial := dir.entries;
      for i := 0 to |listing|
        invariant dir.entries == CleanAll(initial, listing[..i])
      {
        CleanAllStep(initial, listing, i);
        var filename := listing[i];
        CleanEntryCases(dir.entries, filename);
        if dir.IsDir(filename) {
          continue;
        }
        if !IsPng(filename) {
          var removed := dir.Unlink(filename);
          continue;
        }
        var newFilename := RenamedName(filename);
        if newFilename.Some? {
          var ok := true;
          if dir.Exists(newFilename.value) {
            ok := dir.Unlink(newFilename.value);
          }
          if ok {
            ok := dir.Rename(filename, newFilename.value);
          }
        }
      }
      assert listing[..|listing|] == listing;
    }
  }
}
