/** The depot keys of a key file (`Key.vdf` or `config.vdf`). The text has
    already been parsed into an ordered key-value tree; this module reads
    its `depots` section. */
module KeyFile {
  import opened Common

  /** A parsed VDF value: a string, or a block of entries in document order. */
  datatype Vdf = Text(text: string) | Block(entries: seq<Entry>)
  datatype Entry = Entry(key: string, value: Vdf)

  /** A depot id with its decryption key. */
  datatype Depot = Depot(id: string, key: string)

  const DepotsKey := "depots"
  const DecryptionKey := "DecryptionKey"

  /** Dictionary lookup in a block: the value of the first entry with that
      key, if there is one. */
  function Lookup(entries: seq<Entry>, key: string): (r: Option<Vdf>)
    ensures r.None? <==> forall i :: 0 <= i < |entries| ==> entries[i].key != key
    ensures r.Some? ==> exists i :: 0 <= i < |entries| && entries[i] == Entry(key, r.value)
                                   && forall j :: 0 <= j < i ==> entries[j].key != key
  {
    if entries == [] then None
    else if entries[0].key == key then Some(entries[0].value)
    else
      var r := Lookup(entries[1..], key);
      assert r.Some? ==> exists i :: 1 <= i < |entries| && entries[i] == Entry(key, r.value)
                                    && forall j :: 0 <= j < i ==> entries[j].key != key by {
        if r.Some? {
          var i :| 0 <= i < |entries| - 1 && entries[1..][i] == Entry(key, r.value)
                   && forall j :: 0 <= j < i ==> entries[1..][j].key != key;
          assert entries[i + 1] == Entry(key, r.value);
          assert forall j :: 0 <= j < i + 1 ==> entries[j].key != key by {
            forall j | 0 <= j < i + 1 ensures entries[j].key != key {
              if j > 0 { assert entries[j] == entries[1..][j - 1]; }
            }
          }
        }
      }
      r
  }

  /** `(depot_id, info['DecryptionKey'])` for one entry of the `depots`
      section: the entry must be a block whose `DecryptionKey` is a string. */
  function DepotOf(e: Entry): Result<Depot> {
    match e.value
    case Text(_) => Err(NotABlock(e.key))
    case Block(fields) =>
      match Lookup(fields, DecryptionKey)
      case None => Err(MissingKey(DecryptionKey))
      case Some(Text(k)) => Ok(Depot(e.key, k))
      case Some(Block(_)) => Err(KeyIsBlock(DecryptionKey))
  }

  /** The depots of a `depots` section, in order; the first bad entry
      aborts with its fault. */
  function Depots(children: seq<Entry>): Result<seq<Depot>> {
    if children == [] then Ok([])
    else
      match DepotOf(children[0])
      case Err(f) => Err(f)
      case Ok(d) =>
        match Depots(children[1..])
        case Err(f) => Err(f)
        case Ok(ds) => Ok([d] + ds)
  }

  /** The depots of a whole key file: its top-level `depots` section must
      exist and be a block. */
  function KeyDepots(top: seq<Entry>): Result<seq<Depot>> {
    match Lookup(top, DepotsKey)
    case None => Err(MissingKey(DepotsKey))
    case Some(Text(_)) => Err(NotABlock(DepotsKey))
    case Some(Block(children)) => Depots(children)
  }

  /** `ds` followed by what `r` yields, or the fault of `r`. */
  function Then(ds: seq<Depot>, r: Result<seq<Depot>>): Result<seq<Depot>> {
    if r.Ok? then Ok(ds + r.value) else r
  }

  lemma ThenStep(ds: seq<Depot>, d: Depot, r: Result<seq<Depot>>)
    ensures Then(ds, Then([d], r)) == Then(ds + [d], r)
  {
    if r.Ok? { assert ds + ([d] + r.value) == (ds + [d]) + r.value; }
  }

  /** The loop of `get_manifest` over `data['depots'].items()`, appending
      one pair per entry. */
  method ExtractDepots(top: seq<Entry>) returns (r: Result<seq<Depot>>)
    ensures r == KeyDepots(top)
  {
    var section := Lookup(top, DepotsKey);
    if section.None? {
      return Err(MissingKey(DepotsKey));
    }
    if section.value.Text? {
      return Err(NotABlock(DepotsKey));
    }
    var children := section.value.entries;
    var depots: seq<Depot> := [];
    assert children[0..] == children;
    assert Then([], Depots(children)) == Depots(children) by {
      if Depots(children).Ok? { assert [] + Depots(children).value == Depots(children).value; }
    }
    for i := 0 to |children|
      invariant Depots(children) == Then(depots, Depots(children[i..]))
    {
      assert children[i..][0] == children[i] && children[i..][1..] == children[i + 1..];
      var info := children[i].value;
      if info.Text? {
        return Err(NotABlock(children[i].key));
      }
      var key := Lookup(info.entries, DecryptionKey);
      if key.None? {
        return Err(MissingKey(DecryptionKey));
      }
      if key.value.Block? {
        return Err(KeyIsBlock(DecryptionKey));
      }
      var d := Depot(children[i].key, key.value.text);
      assert DepotOf(children[i]) == Ok(d);
      ThenStep(depots, d, Depots(children[i + 1..]));
      depots := depots + [d];
    }
    assert Depots(children[|children|..]) == Ok([]);
    assert depots + [] == depots;
    r := Ok(depots);
  }

  /** The depots section is read entry by entry: it yields depots exactly when
      every entry is a block with a string `DecryptionKey`, and then one depot
      per entry, in the section's order, with the entry's key as its id. */
  lemma {:induction false} DepotsPointwise(children: seq<Entry>)
    ensures Depots(children).Ok? <==> forall i :: 0 <= i < |children| ==> DepotOf(children[i]).Ok?
    ensures Depots(children).Ok? ==>
      && |Depots(children).value| == |children|
      && forall i :: 0 <= i < |children| ==>
           Depots(children).value[i] == DepotOf(children[i]).value
           && Depots(children).value[i].id == children[i].key
  {
    if children != [] {
      DepotsPointwise(children[1..]);
      assert forall i :: 1 <= i < |children| ==> children[i] == children[1..][i - 1];
      if DepotOf(children[0]).Ok? && Depots(children[1..]).Ok? {
        var ds := Depots(children).value;
        assert forall i :: 1 <= i < |children| ==> ds[i] == Depots(children[1..]).value[i - 1];
      }
    }
  }

  /** A depot is produced exactly for a block entry whose `DecryptionKey` is a
      string; it carries the entry's key and that string. */
  lemma DepotOfSpec(e: Entry)
    ensures DepotOf(e).Ok? <==>
      e.value.Block? && exists k :: Lookup(e.value.entries, DecryptionKey) == Some(Text(k))
    ensures DepotOf(e).Ok? ==>
      DepotOf(e).value.id == e.key && Lookup(e.value.entries, DecryptionKey) == Some(Text(DepotOf(e).value.key))
  {
    if e.value.Block? {
      match Lookup(e.value.entries, DecryptionKey)
      case None =>
      case Some(v) =>
        if v.Text? {
          assert Lookup(e.value.entries, DecryptionKey) == Some(Text(v.text));
        }
    }
  }

  /** The key file `"depots" { "123" { "DecryptionKey" "abc" } "456" {
      "DecryptionKey" "def" } }` yields depot 123 with key abc, then depot 456
      with key def. */
  lemma TwoDepotExample()
    ensures KeyDepots([Entry("depots", Block([
              Entry("123", Block([Entry("DecryptionKey", Text("abc"))])),
              Entry("456", Block([Entry("DecryptionKey", Text("def"))]))]))])
            == Ok([Depot("123", "abc"), Depot("456", "def")])
  {
    var e1 := Entry("123", Block([Entry("DecryptionKey", Text("abc"))]));
    var e2 := Entry("456", Block([Entry("DecryptionKey", Text("def"))]));
    assert DepotOf(e1) == Ok(Depot("123", "abc"));
    assert DepotOf(e2) == Ok(Depot("456", "def"));
    assert [e1, e2][1..] == [e2] && [e2][1..] == [];
    assert [Depot("456", "def")] + [] == [Depot("456", "def")];
    assert Depots([e2]) == Ok([Depot("456", "def")]);
    assert [Depot("123", "abc")] + [Depot("456", "def")] == [Depot("123", "abc"), Depot("456", "def")];
    assert Depots([e1, e2]) == Ok([Depot("123", "abc"), Depot("456", "def")]);
  }
}
