/** Worked examples of the extractor on small exports. */
module Scenarios {
  import opened Results
  import opened Text
  import opened Lex
  import opened Vendors
  import opened VendorFacts

  lemma LowerAcme()
    ensures ToLower("ACME") == "acme" && ToLower("Acme") == "acme" && ToLower("acme") == "acme"
  {
  }

  /** A "Vendor Name" column yields each row's cell, lowercased. */
  lemma VendorNameColumn()
    ensures ReadVendors([["Date", "Vendor Name", "Amount"], ["a", "ACME", "b"], ["c", "Acme", "d"]], Eof)
         == Ok(["acme", "acme"])
  {
    var records := [["Date", "Vendor Name", "Amount"], ["a", "ACME", "b"], ["c", "Acme", "d"]];
    var f := VendorField(1, VendorName);
    LastLabelWins(records[0], f);
    assert AllReach(records[1..], 1);
    var r := ReadVendors(records, Eof);
    assert r.Ok? && |r.value| == 2;
    assert r.value[0] == ParseVendor(f, records[1]) == ToLower("ACME");
    assert r.value[1] == ParseVendor(f, records[2]) == ToLower("Acme");
    LowerAcme();
    assert r.value == ["acme", "acme"];
  }

  /** A Description vendor taken from a cell whose first comma sits at `k`
      is the `k` characters before it. */
  lemma CutAt(f: VendorField, rec: Record, cell: string, k: nat)
    requires f.index < |rec| && f.kind == Description
    requires ToLower(rec[f.index]) == cell
    requires k < |cell| && cell[k] == ','
    requires forall i :: 0 <= i < k ==> cell[i] != ','
    ensures ParseVendor(f, rec) == cell[..k]
  {
  }

  lemma FooBarRow()
    ensures ParseVendor(VendorField(0, Description), ["Foo Bar, misc"]) == "foo bar"
  {
    var c := ToLower("Foo Bar, misc");
    assert c == "foo bar, misc" by {
      assert forall i :: 0 <= i < |c| ==> c[i] == "foo bar, misc"[i];
    }
    CutAt(VendorField(0, Description), ["Foo Bar, misc"], "foo bar, misc", 7);
  }

  lemma FooBazRow()
    ensures ParseVendor(VendorField(0, Description), ["foo baz, other"]) == "foo baz"
  {
    var c := ToLower("foo baz, other");
    assert c == "foo baz, other" by {
      assert forall i :: 0 <= i < |c| ==> c[i] == "foo baz, other"[i];
    }
    CutAt(VendorField(0, Description), ["foo baz, other"], "foo baz, other", 7);
  }

  /** A "Description" column yields the lowercased text before the first comma. */
  lemma DescriptionColumn()
    ensures ReadVendors([["Description"], ["Foo Bar, misc"], ["foo baz, other"]], Eof)
         == Ok(["foo bar", "foo baz"])
  {
    var records := [["Description"], ["Foo Bar, misc"], ["foo baz, other"]];
    var f := VendorField(0, Description);
    LastLabelWins(records[0], f);
    assert AllReach(records[1..], 0);
    var r := ReadVendors(records, Eof);
    assert r.Ok? && |r.value| == 2;
    FooBarRow();
    FooBazRow();
    assert r.value == ["foo bar", "foo baz"];
  }

  /** With both headers present, the later column wins. */
  lemma LaterHeaderWins()
    ensures DetectField(["Vendor Name", "Memo", "Description"]) == Some(VendorField(2, Description))
  {
  }

  /** A file with neither header contributes nothing, even if the reader fails later. */
  lemma UnrecognisedHeader()
    ensures ReadVendors([["Date", "Amount"], ["x", "1"]], ReadError) == Ok([])
  {
  }

  lemma LowerWords()
    ensures ToLower("zeta") == "zeta" && ToLower("Beta") == "beta"
  {
  }

  /** A file with a lone "Vendor Name" column and two data rows. */
  lemma TwoRowFile(path: string, x: string, y: string)
    requires HasSuffix(path, ".csv")
    ensures VisitEntry(Visit(path, Opened([["Vendor Name"], [x], [y]], Eof))) == Ok([ToLower(x), ToLower(y)])
  {
    var records := [["Vendor Name"], [x], [y]];
    var f := VendorField(0, VendorName);
    LastLabelWins(records[0], f);
    assert AllReach(records[1..], 0);
    var r := ReadVendors(records, Eof);
    assert r.Ok? && |r.value| == 2;
    assert r.value == [ToLower(x), ToLower(y)];
  }

  /** A walk over two vendor exports and a non-CSV file. */
  const SampleWalk: seq<Entry> :=
    [Visit("a.csv", Opened([["Vendor Name"], ["acme"], ["zeta"]], Eof)),
     Visit("b.csv", Opened([["Vendor Name"], ["ACME"], ["Beta"]], Eof)),
     Visit("notes.txt", Unreadable)]

  lemma SampleEntries()
    ensures |SampleWalk| == 3
    ensures VisitEntry(SampleWalk[0]) == Ok(["acme", "zeta"])
    ensures VisitEntry(SampleWalk[1]) == Ok(["acme", "beta"])
    ensures VisitEntry(SampleWalk[2]) == Ok([])
  {
    LowerAcme();
    LowerWords();
    assert HasSuffix("a.csv", ".csv") && HasSuffix("b.csv", ".csv");
    TwoRowFile("a.csv", "acme", "zeta");
    TwoRowFile("b.csv", "ACME", "Beta");
    assert !HasSuffix("notes.txt", ".csv");
  }

  lemma SampleOrder()
    ensures StrictlySorted(["acme", "beta", "zeta"])
  {
  }

  /** When every entry's result is a success, the run succeeds and its
      vendors are those of the results. */
  lemma RunMembers(entries: seq<Entry>, results: seq<Result<seq<string>, Failure>>)
    requires |results| == |entries|
    requires forall i :: 0 <= i < |entries| ==> results[i] == VisitEntry(entries[i])
    requires forall i :: 0 <= i < |results| ==> results[i].Ok?
    ensures Run(entries).Ok?
    ensures StrictlySorted(Run(entries).value)
    ensures forall v :: v in Run(entries).value <==>
      exists i :: 0 <= i < |results| && results[i].Ok? && v in results[i].value
  {
  }

  /** The vendors gathered from the sample files' results are exactly acme, beta and zeta. */
  lemma SampleMembers(results: seq<Result<seq<string>, Failure>>, out: seq<string>)
    requires results == [Ok(["acme", "zeta"]), Ok(["acme", "beta"]), Ok([])]
    requires forall v :: v in out <==>
      exists i :: 0 <= i < |results| && results[i].Ok? && v in results[i].value
    ensures forall v :: v in out <==> v in ["acme", "beta", "zeta"]
  {
    forall v
      ensures v in out <==> v in ["acme", "beta", "zeta"]
    {
      if v in out {
        var i :| 0 <= i < |results| && results[i].Ok? && v in results[i].value;
        assert i == 0 || i == 1;
      }
      if v in ["acme", "beta", "zeta"] {
        if v == "beta" {
          assert v in results[1].value;
        } else {
          assert v in results[0].value;
        }
      }
    }
  }

  /** Any three entries yielding the sample files' vendor lists make the run print acme, beta, zeta. */
  lemma SampleRun(entries: seq<Entry>)
    requires |entries| == 3
    requires VisitEntry(entries[0]) == Ok(["acme", "zeta"])
    requires VisitEntry(entries[1]) == Ok(["acme", "beta"])
    requires VisitEntry(entries[2]) == Ok([])
    ensures Run(entries) == Ok(["acme", "beta", "zeta"])
  {
    var results: seq<Result<seq<string>, Failure>> := [Ok(["acme", "zeta"]), Ok(["acme", "beta"]), Ok([])];
    assert forall i :: 0 <= i < |entries| ==> results[i] == VisitEntry(entries[i]) by {
      forall i | 0 <= i < |entries|
        ensures results[i] == VisitEntry(entries[i])
      {
        if i == 0 {} else if i == 1 {} else {}
      }
    }
    RunMembers(entries, results);
    var out := Run(entries).value;
    SampleMembers(results, out);
    SampleOrder();
    SortedListingUnique(out, ["acme", "beta", "zeta"]);
  }

  /** Two files' vendors are merged, sorted and deduplicated, case variants
      collapse, and a path without the ".csv" suffix is skipped unopened. */
  lemma TwoFilesMerged()
    ensures Run(SampleWalk) == Ok(["acme", "beta", "zeta"])
  {
    SampleEntries();
    SampleRun(SampleWalk);
  }
}
