/** The loading of the resume list on the home page: the entries under `resume:*` in the
    key-value store are parsed and kept when they hold a record with an id and an image.
    `JSON.parse` is a parameter that answers `None` when it throws or yields no record. */
module Home {
  import opened JsText
  import opened Records

  /** One entry of the key-value listing. */
  datatype KvEntry = KvEntry(key: string, value: string)

  /** A parsed record is listed when its `id` and `imagePath` are both truthy. */
  predicate Listable(r: Resume) {
    r.id != "" && r.imagePath != ""
  }

  /** What one entry contributes: nothing for an empty value, a failed parse or a record
      without id or image; the parsed record otherwise. */
  function EntryResumes(e: KvEntry, parse: string -> Option<Resume>): (rs: seq<Resume>)
    ensures |rs| <= 1
    ensures rs != [] <==> e.value != "" && parse(e.value).Some? && Listable(parse(e.value).value)
    ensures rs != [] ==> rs[0] == parse(e.value).value
  {
    if e.value == "" then []
    else match parse(e.value)
      case None => []
      case Some(data) => if Listable(data) then [data] else []
  }

  /** The records the loop collects from `entries`, in listing order. */
  function Accepted(entries: seq<KvEntry>, parse: string -> Option<Resume>): (rs: seq<Resume>)
    ensures |rs| <= |entries|
    ensures forall i :: 0 <= i < |rs| ==> Listable(rs[i])
  {
    if entries == [] then []
    else Accepted(entries[..|entries| - 1], parse) + EntryResumes(entries[|entries| - 1], parse)
  }

  /** The collection distributes over concatenation: the result follows the order of the
      listing, entry by entry. */
  lemma {:induction false} AcceptedConcat(a: seq<KvEntry>, b: seq<KvEntry>, parse: string -> Option<Resume>)
    ensures Accepted(a + b, parse) == Accepted(a, parse) + Accepted(b, parse)
  {
    if b == [] {
      assert a + b == a;
    } else {
      assert (a + b)[|a + b| - 1] == b[|b| - 1];
      assert (a + b)[..|a + b| - 1] == a + b[..|b| - 1];
      AcceptedConcat(a, b[..|b| - 1], parse);
    }
  }

  /** A record is listed exactly when some entry with a non-empty value parses to it and
      it has an id and an image. */
  lemma {:induction false} AcceptedMembership(entries: seq<KvEntry>, parse: string -> Option<Resume>, r: Resume)
    ensures r in Accepted(entries, parse) <==>
      exists e :: e in entries && e.value != "" && parse(e.value) == Some(r) && Listable(r)
  {
    if entries != [] {
      var init, last := entries[..|entries| - 1], entries[|entries| - 1];
      assert entries == init + [last];
      AcceptedMembership(init, parse, r);
      if r in Accepted(entries, parse) && r !in Accepted(init, parse) {
        assert r in EntryResumes(last, parse);
        assert last in entries;
      }
      if exists e :: e in entries && e.value != "" && parse(e.value) == Some(r) && Listable(r) {
        var e :| e in entries && e.value != "" && parse(e.value) == Some(r) && Listable(r);
        if e !in init {
          assert e == last;
          assert EntryResumes(last, parse) == [r];
        }
      }
    }
  }

  lemma AcceptedBlank(key: string, parse: string -> Option<Resume>)
    ensures Accepted([KvEntry(key, "")], parse) == []
  {
    var blank := [KvEntry(key, "")];
    assert blank[..0] == [];
    assert EntryResumes(blank[0], parse) == [];
  }

  /** An entry blanked by the wipe panel contributes nothing, wherever it sits. */
  lemma BlankEntryIgnored(a: seq<KvEntry>, b: seq<KvEntry>, key: string, parse: string -> Option<Resume>)
    ensures Accepted(a + [KvEntry(key, "")] + b, parse) == Accepted(a + b, parse)
  {
    var blank := [KvEntry(key, "")];
    var ab := a + blank;
    AcceptedBlank(key, parse);
    AcceptedConcat(ab, b, parse);
    AcceptedConcat(a, blank, parse);
    AcceptedConcat(a, b, parse);
    assert Accepted(ab, parse) == Accepted(a, parse);
  }

  /** The loop of `loadResumes`. `listing` is `None` when the listing is null or the call
      throws; both leave the list empty. */
  method LoadResumes(listing: Option<seq<KvEntry>>, parse: string -> Option<Resume>) returns (resumes: seq<Resume>)
    ensures listing.None? ==> resumes == []
    ensures listing.Some? ==> resumes == Accepted(listing.value, parse)
  {
    if listing.None? || |listing.value| == 0 {
      return [];
    }
    var entries := listing.value;
    var parsed: seq<Resume> := [];
    for i := 0 to |entries|
      invariant parsed == Accepted(entries[..i], parse)
    {
      assert entries[..i + 1][..i] == entries[..i];
      var entry := entries[i];
      if entry.value == "" {
        continue;
      }
      var data := parse(entry.value);
      if data.None? {
        continue;
      }
      if data.value.id != "" && data.value.imagePath != "" {
        parsed := parsed + [data.value];
      }
    }
    assert entries[..|entries|] == entries;
    resumes := parsed;
  }
}
