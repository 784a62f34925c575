/** The loader script (`parse_vdf_to_lua`): one `addappid` line for the
    app, then for each depot its key line followed by one `setManifestid`
    line per manifest file of that depot in the save directory. */
module Loader {
  import opened Common
  import opened KeyFile
  import opened Artifacts

  /** A file of the listing belongs to depot `d` when it is named
      `{d}_<id>.manifest`. */
  predicate IsManifestOf(d: string, name: string) {
    StartsWith(name, d + "_") && EndsWith(name, ManifestSuffix)
  }

  /** The prefix `{d}_` and the suffix `.manifest` never overlap, since the
      suffix holds no `_`. */
  lemma PrefixBeforeSuffix(d: string, name: string)
    requires IsManifestOf(d, name)
    ensures |d| + 1 + |ManifestSuffix| <= |name|
  {
    assert name[|d|] == '_';
  }

  /** `mf[len(d)+1:-9]`: the file name without the depot prefix and the
      `.manifest` suffix. */
  function ManifestId(d: string, name: string): (id: string)
    requires IsManifestOf(d, name)
    ensures name == d + "_" + id + ManifestSuffix
  {
    PrefixBeforeSuffix(d, name);
    var id := name[|d| + 1..|name| - |ManifestSuffix|];
    assert name == name[..|d| + 1] + id + name[|name| - |ManifestSuffix|..];
    id
  }

  function AppLine(appId: string): string {
    "addappid(" + appId + ")"
  }

  function DepotLine(d: Depot): string {
    "addappid(" + d.id + ",1,\"" + d.key + "\")"
  }

  function ManifestLine(d: string, manifestId: string): string {
    "setManifestid(" + d + ",\"" + manifestId + "\",0)"
  }

  /** The `setManifestid` lines of depot `d`, in listing order. */
  function ManifestLines(d: string, listing: seq<string>): seq<string> {
    if listing == [] then []
    else
      var name := listing[|listing| - 1];
      ManifestLines(d, listing[..|listing| - 1])
      + (if IsManifestOf(d, name) then [ManifestLine(d, ManifestId(d, name))] else [])
  }

  /** For each depot in order, its key line and then its manifest lines. */
  function DepotLines(depots: seq<Depot>, listing: seq<string>): seq<string> {
    if depots == [] then []
    else
      var d := depots[|depots| - 1];
      DepotLines(depots[..|depots| - 1], listing) + [DepotLine(d)] + ManifestLines(d.id, listing)
  }

  function ScriptLines(appId: string, depots: seq<Depot>, listing: seq<string>): seq<string> {
    [AppLine(appId)] + DepotLines(depots, listing)
  }

  /** `parse_vdf_to_lua`, with `os.listdir(save_dir)` given as `listing`. */
  method LoaderScript(depots: seq<Depot>, appId: string, listing: seq<string>) returns (script: string)
    ensures script == Join(ScriptLines(appId, depots, listing), '\n')
  {
    var lines := [AppLine(appId)];
    for i := 0 to |depots|
      invariant lines == [AppLine(appId)] + DepotLines(depots[..i], listing)
    {
      var d := depots[i];
      assert depots[..i + 1][..i] == depots[..i];
      lines := lines + [DepotLine(d)];
      for j := 0 to |listing|
        invariant lines == [AppLine(appId)] + DepotLines(depots[..i], listing) + [DepotLine(d)]
                           + ManifestLines(d.id, listing[..j])
      {
        assert listing[..j + 1][..j] == listing[..j];
        var mf := listing[j];
        if StartsWith(mf, d.id + "_") && EndsWith(mf, ".manifest") {
          PrefixBeforeSuffix(d.id, mf);
          var manifestId := mf[|d.id| + 1..|mf| - 9];
          lines := lines + [ManifestLine(d.id, manifestId)];
        }
      }
      assert listing[..|listing|] == listing;
    }
    assert depots[..|depots|] == depots;
    script := Join(lines, '\n');
  }

  /** Naming a manifest `{d}_{id}.manifest` and slicing its id back out
      gives `id`. */
  lemma ManifestIdRoundTrip(d: string, id: string)
    ensures IsManifestOf(d, d + "_" + id + ManifestSuffix)
    ensures ManifestId(d, d + "_" + id + ManifestSuffix) == id
  {
    var name := d + "_" + id + ManifestSuffix;
    assert name[..|d| + 1] == d + "_";
    assert name[|name| - |ManifestSuffix|..] == ManifestSuffix;
    var id' := ManifestId(d, name);
    assert |id'| == |id|;
    assert id' == name[|d| + 1..|d| + 1 + |id|] == id;
  }

  /** For depot ids without `_` (such as decimal ones) a manifest file
      belongs to at most one depot: depot `12` does not take `123_…`. */
  lemma ManifestOwnerUnique(d1: string, d2: string, name: string)
    requires '_' !in d1 && '_' !in d2
    requires IsManifestOf(d1, name) && IsManifestOf(d2, name)
    ensures d1 == d2
  {
    assert name[|d1|] == '_' && name[|d2|] == '_';
    assert d1 == name[..|d1|] && d2 == name[..|d2|];
  }

  lemma ShorterDepotDoesNotMatch()
    ensures IsManifestOf("123", "123_5.manifest")
    ensures !IsManifestOf("12", "123_5.manifest")
  {
    assert "123_5.manifest"[..4] == "123_";
    assert "123_5.manifest"[5..] == ".manifest";
    assert "123_5.manifest"[2] == '3' && "12_"[2] == '_';
  }

  /** A line is among the manifest lines of a depot exactly when some
      listed file of that depot carries its id; there are never more lines
      than files. */
  lemma {:induction false} ManifestLinesSpec(d: string, listing: seq<string>)
    ensures |ManifestLines(d, listing)| <= |listing|
    ensures forall line :: line in ManifestLines(d, listing) <==>
      exists name :: name in listing && IsManifestOf(d, name) && line == ManifestLine(d, ManifestId(d, name))
  {
    if listing != [] {
      var init := listing[..|listing| - 1];
      var last := listing[|listing| - 1];
      ManifestLinesSpec(d, init);
      assert listing == init + [last];
      forall line | line in ManifestLines(d, listing)
        ensures exists name :: name in listing && IsManifestOf(d, name) && line == ManifestLine(d, ManifestId(d, name))
      {
        if line in ManifestLines(d, init) {
          var name :| name in init && IsManifestOf(d, name) && line == ManifestLine(d, ManifestId(d, name));
          assert name in listing;
        } else {
          assert IsManifestOf(d, last) && line == ManifestLine(d, ManifestId(d, last));
        }
      }
      forall line | exists name :: name in listing && IsManifestOf(d, name) && line == ManifestLine(d, ManifestId(d, name))
        ensures line in ManifestLines(d, listing)
      {
        var name :| name in listing && IsManifestOf(d, name) && line == ManifestLine(d, ManifestId(d, name));
        if name != last {
          assert name in init;
        }
      }
    }
  }

  /** A single listed file gives one line, with its id, when it is a
      manifest of depot `d`, and none otherwise. */
  lemma ManifestLinesOne(d: string, name: string)
    ensures ManifestLines(d, [name]) ==
      if IsManifestOf(d, name) then [ManifestLine(d, ManifestId(d, name))] else []
  {
    assert [name][..0] == [];
  }

  /** The lines of two listings are the lines of each, in listing order.
      With ManifestLinesOne this gives exactly one line per listed file of
      the depot, carrying the file's id, in the order of the listing. */
  lemma {:induction false} ManifestLinesAppend(d: string, a: seq<string>, b: seq<string>)
    ensures ManifestLines(d, a + b) == ManifestLines(d, a) + ManifestLines(d, b)
    decreases |b|
  {
    if b == [] {
      assert a + b == a;
    } else {
      var init := b[..|b| - 1];
      ManifestLinesAppend(d, a, init);
      assert (a + b)[..|a + b| - 1] == a + init;
      assert (a + b)[|a + b| - 1] == b[|b| - 1];
    }
  }

  /** The lines of two depot lists are the lines of each, in order. */
  lemma {:induction false} DepotLinesAppend(a: seq<Depot>, b: seq<Depot>, listing: seq<string>)
    ensures DepotLines(a + b, listing) == DepotLines(a, listing) + DepotLines(b, listing)
    decreases |b|
  {
    if b == [] {
      assert a + b == a;
    } else {
      var init := b[..|b| - 1];
      var d := b[|b| - 1];
      DepotLinesAppend(a, init, listing);
      assert (a + b)[..|a + b| - 1] == a + init;
      assert (a + b)[|a + b| - 1] == d;
    }
  }

  /** Each depot contributes its key line, directly followed by its manifest
      lines, before the lines of the depots after it. */
  lemma DepotLinesFront(d: Depot, rest: seq<Depot>, listing: seq<string>)
    ensures DepotLines([d] + rest, listing)
         == [DepotLine(d)] + ManifestLines(d.id, listing) + DepotLines(rest, listing)
  {
    DepotLinesAppend([d], rest, listing);
    assert [d][..0] == [];
    assert DepotLines([d], listing) == [DepotLine(d)] + ManifestLines(d.id, listing);
  }

  /** The script has at least one line per depot plus the app line, opens
      with `addappid(appid)`, and holds the key line of every depot. */
  lemma {:induction false} ScriptShape(appId: string, depots: seq<Depot>, listing: seq<string>)
    ensures var lines := ScriptLines(appId, depots, listing);
      && |lines| >= 1 + |depots|
      && lines[0] == AppLine(appId)
      && StartsWith(Join(lines, '\n'), AppLine(appId))
      && forall i :: 0 <= i < |depots| ==> DepotLine(depots[i]) in lines
    decreases |depots|
  {
    var lines := ScriptLines(appId, depots, listing);
    if depots != [] {
      var init := depots[..|depots| - 1];
      ScriptShape(appId, init, listing);
      assert lines == ScriptLines(appId, init, listing) + [DepotLine(depots[|depots| - 1])]
                      + ManifestLines(depots[|depots| - 1].id, listing);
      forall i | 0 <= i < |depots| ensures DepotLine(depots[i]) in lines {
        if i < |depots| - 1 {
          assert depots[i] == init[i];
        }
      }
    }
    if |lines| > 1 {
      assert Join(lines, '\n') == lines[0] + (['\n'] + Join(lines[1..], '\n'));
    }
    StartsWithAppend(lines[0], if |lines| > 1 then ['\n'] + Join(lines[1..], '\n') else []);
    assert lines[0] + [] == lines[0];
  }

  lemma {:induction false} ManifestLinesSingle(d: string, listing: seq<string>)
    requires '\n' !in d
    requires forall k :: 0 <= k < |listing| ==> '\n' !in listing[k]
    ensures forall k :: 0 <= k < |ManifestLines(d, listing)| ==> '\n' !in ManifestLines(d, listing)[k]
  {
    if listing != [] {
      var name := listing[|listing| - 1];
      ManifestLinesSingle(d, listing[..|listing| - 1]);
      if IsManifestOf(d, name) {
        var id := ManifestId(d, name);
        assert '\n' !in id by {
          assert forall c :: c in id ==> c in name;
        }
      }
    }
  }

  lemma {:induction false} DepotLinesSingle(depots: seq<Depot>, listing: seq<string>)
    requires forall i :: 0 <= i < |depots| ==> '\n' !in depots[i].id && '\n' !in depots[i].key
    requires forall k :: 0 <= k < |listing| ==> '\n' !in listing[k]
    ensures forall k :: 0 <= k < |DepotLines(depots, listing)| ==> '\n' !in DepotLines(depots, listing)[k]
  {
    if depots != [] {
      var d := depots[|depots| - 1];
      DepotLinesSingle(depots[..|depots| - 1], listing);
      ManifestLinesSingle(d.id, listing);
    }
  }

  /** When no id, key or file name holds a line break, the script splits
      back into exactly its lines. */
  lemma ScriptSplitsIntoLines(appId: string, depots: seq<Depot>, listing: seq<string>)
    requires '\n' !in appId
    requires forall i :: 0 <= i < |depots| ==> '\n' !in depots[i].id && '\n' !in depots[i].key
    requires forall k :: 0 <= k < |listing| ==> '\n' !in listing[k]
    ensures Split(Join(ScriptLines(appId, depots, listing), '\n'), '\n') == ScriptLines(appId, depots, listing)
  {
    DepotLinesSingle(depots, listing);
    var lines := ScriptLines(appId, depots, listing);
    assert forall k :: 1 <= k < |lines| ==> lines[k] == DepotLines(depots, listing)[k - 1];
    SplitJoin(lines, '\n');
  }
}
