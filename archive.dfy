/** The ZIP archive the two split functions fill, one entry per group:
    `split_excel_and_zip` writes each group's workbook as `<key>.xlsx`,
    `create_outlook_emails` writes each group's message as `<key>.eml`. */
module Archive {
  import opened Base
  import opened Partition
  import opened Email

  /** One archive member: its name and its (uncompressed) contents. */
  datatype Entry = Entry(name: string, data: Bytes)

  /** The library code the application calls for each group and does not
      define itself: pandas/openpyxl writing a group as a one-sheet
      workbook, and `BytesGenerator.flatten` serialising a message. */
  datatype Libraries = Libraries(toExcel: seq<Row> -> Bytes, flatten: Message -> Bytes)

  /** What a group becomes: its workbook alone, or its workbook attached to
      a message for the given recipients. */
  datatype Encoder = SheetOnly | SheetAsEmail(recipients: seq<string>)

  function Suffix(enc: Encoder): string
  {
    match enc
    case SheetOnly => ".xlsx"
    case SheetAsEmail(_) => ".eml"
  }

  /** The archive entry one loop iteration writes for group `g`: named
      after its key. */
  function Artifact(enc: Encoder, g: Group, libs: Libraries): (e: Entry)
    ensures e.name == g.key + Suffix(enc) && e.data == ArtifactData(enc, g, libs)
  {
    Entry(g.key + Suffix(enc), ArtifactData(enc, g, libs))
  }

  /** The contents of that entry: the group's workbook, or the flattened
      message carrying it. */
  function ArtifactData(enc: Encoder, g: Group, libs: Libraries): (d: Bytes)
    ensures enc.SheetOnly? ==> d == libs.toExcel(g.rows)
    ensures enc.SheetAsEmail? ==> d == libs.flatten(Compose(g.key, libs.toExcel(g.rows), enc.recipients))
  {
    match enc
    case SheetOnly => libs.toExcel(g.rows)
    case SheetAsEmail(rs) => libs.flatten(Compose(g.key, libs.toExcel(g.rows), rs))
  }

  /** The entries written for `gs`, one per group, in loop order. */
  function Entries(gs: seq<Group>, enc: Encoder, libs: Libraries): (es: seq<Entry>)
    ensures |es| == |gs|
    ensures forall i :: 0 <= i < |gs| ==> es[i] == Artifact(enc, gs[i], libs)
  {
    if |gs| == 0 then []
    else
      var init := gs[..|gs| - 1];
      var es := Entries(init, enc, libs) + [Artifact(enc, gs[|gs| - 1], libs)];
      assert forall i :: 0 <= i < |init| ==> init[i] == gs[i];
      es
  }

  /** Reading member `name` back: the contents of the last entry of that
      name, as `ZipFile.read` finds it, or nothing. */
  function Lookup(es: seq<Entry>, name: string): (r: Option<Bytes>)
    ensures r.None? <==> forall i :: 0 <= i < |es| ==> es[i].name != name
  {
    if |es| == 0 then None
    else if es[|es| - 1].name == name then Some(es[|es| - 1].data)
    else
      var r := Lookup(es[..|es| - 1], name);
      assert forall i :: 0 <= i < |es| - 1 ==> es[i] == es[..|es| - 1][i];
      r
  }

  predicate DistinctNames(es: seq<Entry>)
  {
    forall i, j :: 0 <= i < j < |es| ==> es[i].name != es[j].name
  }

  lemma EntryName(gs: seq<Group>, enc: Encoder, libs: Libraries, i: nat)
    requires i < |gs|
    ensures i < |Entries(gs, enc, libs)| && Entries(gs, enc, libs)[i].name == gs[i].key + Suffix(enc)
  {
  }

  /** In an archive whose names are distinct, each entry is found by its
      name. */
  lemma {:induction false} LookupFinds(es: seq<Entry>, i: nat)
    requires DistinctNames(es)
    requires i < |es|
    ensures Lookup(es, es[i].name) == Some(es[i].data)
  {
    if i < |es| - 1 {
      var init := es[..|es| - 1];
      assert init[i] == es[i];
      assert DistinctNames(init);
      LookupFinds(init, i);
    }
  }

  /** Appending a suffix keeps distinct keys distinct. */
  lemma SuffixInjective(a: string, b: string, suffix: string)
    requires a + suffix == b + suffix
    ensures a == b
  {
    assert a == (a + suffix)[..|a|];
    assert b == (b + suffix)[..|b|];
  }

  /** The archive both loops write: one member per group, in group
      order, each the group's artifact. */
  function ArchiveOf(rows: seq<Row>, enc: Encoder, libs: Libraries): (es: seq<Entry>)
    ensures |es| == |GroupBy(rows)|
    ensures forall i :: 0 <= i < |es| ==> es[i] == Artifact(enc, GroupBy(rows)[i], libs)
  {
    Entries(GroupBy(rows), enc, libs)
  }

  /** The archive has one entry per distinct key value, so none for an
      empty table, and no two entries share a name. */
  lemma ArchiveEntryPerKey(rows: seq<Row>, enc: Encoder, libs: Libraries)
    ensures |ArchiveOf(rows, enc, libs)| == |KeySet(rows)|
    ensures DistinctNames(ArchiveOf(rows, enc, libs))
  {
    var gs := GroupBy(rows);
    var es := ArchiveOf(rows, enc, libs);
    GroupCount(rows);
    forall i, j | 0 <= i < j < |es| ensures es[i].name != es[j].name {
      if es[i].name == es[j].name {
        assert es[i].name == gs[i].key + Suffix(enc);
        assert es[j].name == gs[j].key + Suffix(enc);
        SuffixInjective(gs[i].key, gs[j].key, Suffix(enc));
        assert false;
      }
    }
  }

  /** The member named after key `k` holds the artifact made from exactly
      the rows with key `k`. */
  lemma ArchiveEntryOfKey(rows: seq<Row>, enc: Encoder, libs: Libraries, k: string)
    requires HasKey(rows, k)
    ensures Lookup(ArchiveOf(rows, enc, libs), k + Suffix(enc)) == Some(ArtifactData(enc, Group(k, Filter(rows, k)), libs))
  {
    var gs := GroupBy(rows);
    var es := ArchiveOf(rows, enc, libs);
    var r :| r in rows && r.key == k;
    var i := RowInExactlyOneGroup(rows, r);
    GroupHoldsKeyRows(rows, i);
    ArchiveEntryPerKey(rows, enc, libs);
    assert es[i] == Artifact(enc, Group(k, Filter(rows, k)), libs);
    LookupFinds(es, i);
  }

  /** A name that is not some key followed by the suffix is not in the
      archive. */
  lemma ArchiveHasNoOtherEntry(rows: seq<Row>, enc: Encoder, libs: Libraries, name: string)
    requires forall r :: r in rows ==> name != r.key + Suffix(enc)
    ensures Lookup(ArchiveOf(rows, enc, libs), name) == None
  {
    var gs := GroupBy(rows);
    forall i | 0 <= i < |gs| ensures name != gs[i].key + Suffix(enc) {
      assert gs[i].rows[0] in gs[i].rows;
    }
    NoEntryNamed(gs, enc, libs, name);
  }

  lemma NoEntryNamed(gs: seq<Group>, enc: Encoder, libs: Libraries, name: string)
    requires forall i :: 0 <= i < |gs| ==> name != gs[i].key + Suffix(enc)
    ensures Lookup(Entries(gs, enc, libs), name) == None
  {
    var es := Entries(gs, enc, libs);
    forall i | 0 <= i < |es| ensures es[i].name != name {
      EntryName(gs, enc, libs, i);
    }
  }

  /** In ZIP mode the member `<k>.xlsx` is the workbook of exactly the
      rows with key `k`. */
  lemma SheetEntryOfKey(rows: seq<Row>, libs: Libraries, k: string)
    requires HasKey(rows, k)
    ensures Lookup(ArchiveOf(rows, SheetOnly, libs), k + ".xlsx") == Some(libs.toExcel(Filter(rows, k)))
  {
    ArchiveEntryOfKey(rows, SheetOnly, libs, k);
  }

  /** In e-mail mode the member `<k>.eml` is the flattened message whose
      subject and body name `k`, addressed to the recipients, with the
      workbook of exactly the rows of `k` attached as `<k>.xlsx`. */
  lemma EmailEntryOfKey(rows: seq<Row>, recipients: seq<string>, libs: Libraries, k: string)
    requires HasKey(rows, k)
    ensures var m := Compose(k, libs.toExcel(Filter(rows, k)), recipients);
      && Lookup(ArchiveOf(rows, SheetAsEmail(recipients), libs), k + ".eml") == Some(libs.flatten(m))
      && GetHeader(m, "Subject").Some?
      && SubjectKey(GetHeader(m, "Subject").value) == Some(k)
      && BodyKey(m.parts[0].text) == Some(k)
      && DispositionFilename(m.parts[1].disposition) == Some(k + ".xlsx")
      && m.parts[1].payload == libs.toExcel(Filter(rows, k))
  {
    ArchiveEntryOfKey(rows, SheetAsEmail(recipients), libs, k);
    ComposedMessage(k, libs.toExcel(Filter(rows, k)), recipients);
  }

  /** The East/West table gives two members: `East.xlsx` with the first
      and third rows, `West.xlsx` with the second. */
  lemma RegionExample(libs: Libraries)
    ensures var rows := RegionTable();
      ArchiveOf(rows, SheetOnly, libs)
        == [Entry("East" + ".xlsx", libs.toExcel([rows[0], rows[2]])), Entry("West" + ".xlsx", libs.toExcel([rows[1]]))]
  {
    var rows := RegionTable();
    RegionGroups();
    var es := ArchiveOf(rows, SheetOnly, libs);
    assert es[0] == Entry("East" + ".xlsx", libs.toExcel([rows[0], rows[2]]));
    assert es[1] == Entry("West" + ".xlsx", libs.toExcel([rows[1]]));
  }

  /** The in-memory ZIP file (`zipfile.ZipFile` over a `BytesIO`): its
      members in the order they were written. */
  class ZipArchive {
    var entries: seq<Entry>

    constructor ()
      ensures entries == []
    {
      entries := [];
    }

    /** `zipf.writestr(name, data)`: adds a member after the existing ones,
        even when one of that name exists already. */
    method WriteStr(name: string, data: Bytes)
      modifies this
      ensures entries == old(entries) + [Entry(name, data)]
    {
      entries := entries + [Entry(name, data)];
    }
  }

  /** One more loop iteration writes the next group's artifact. */
  lemma NextEntry(gs: seq<Group>, i: nat, enc: Encoder, libs: Libraries)
    requires i < |gs|
    ensures Entries(gs[..i + 1], enc, libs) == Entries(gs[..i], enc, libs) + [Artifact(enc, gs[i], libs)]
  {
    assert gs[..i + 1][..i] == gs[..i];
  }

  lemma EmailArtifact(g: Group, rs: seq<string>, libs: Libraries)
    ensures Artifact(SheetAsEmail(rs), g, libs) == Entry(g.key + ".eml", libs.flatten(Compose(g.key, libs.toExcel(g.rows), rs)))
  {
  }

  /** `split_excel_and_zip`: one `<key>.xlsx` member per group. */
  method SplitExcelAndZip(rows: seq<Row>, libs: Libraries) returns (zip: ZipArchive)
    ensures fresh(zip)
    ensures zip.entries == ArchiveOf(rows, SheetOnly, libs)
  {
    zip := new ZipArchive();
    var groups := GroupBy(rows);
    var i := 0;
    while i < |groups|
      invariant 0 <= i <= |groups|
      invariant zip.entries == Entries(groups[..i], SheetOnly, libs)
    {
      var excel := libs.toExcel(groups[i].rows);
      zip.WriteStr(groups[i].key + ".xlsx", excel);
      NextEntry(groups, i, SheetOnly, libs);
      i := i + 1;
    }
    assert groups[..i] == groups;
  }

  /** `create_outlook_emails`: one `<key>.eml` member per group, holding
      the flattened message that carries the group's workbook. */
  method CreateOutlookEmails(rows: seq<Row>, recipients: seq<string>, libs: Libraries) returns (zip: ZipArchive)
    ensures fresh(zip)
    ensures zip.entries == ArchiveOf(rows, SheetAsEmail(recipients), libs)
  {
    zip := new ZipArchive();
    var groups := GroupBy(rows);
    var i := 0;
    while i < |groups|
      invariant 0 <= i <= |groups|
      invariant zip.entries == Entries(groups[..i], SheetAsEmail(recipients), libs)
    {
      var g := groups[i];
      var excel := libs.toExcel(g.rows);
      var msg := ComposeMessage(g.key, excel, recipients);
      var eml := libs.flatten(msg.Value());
      zip.WriteStr(g.key + ".eml", eml);
      EmailArtifact(g, recipients, libs);
      NextEntry(groups, i, SheetAsEmail(recipients), libs);
      i := i + 1;
    }
    assert groups[..i] == groups;
  }
}
