/** The grouping and counting of `maintenance_scripts/pdf_vector_indexer.py`:
    each cached PDF goes to the first ministry whose name, spaces turned into
    underscores, occurs in its file name, and the groups are then indexed one
    after the other. The document pipeline is an input. */
module PdfVectorIndexer {
  import opened Strings
  import opened Seqs
  import opened Values
  import DocumentProcessor

  /** The group of the PDFs that name no ministry. */
  const UnknownGroup: string := "Unknown"

  /** `m.replace(" ", "_")` */
  function FileTag(m: string): string {
    ReplaceChar(m, ' ', "_")
  }

  /** Only spaces change: every other character, commas and apostrophes
      included, stays where it was. */
  lemma {:induction false} FileTagSpec(m: string)
    ensures |FileTag(m)| == |m|
    ensures forall i | 0 <= i < |m| :: FileTag(m)[i] == if m[i] == ' ' then '_' else m[i]
  {
    if m != [] {
      FileTagSpec(m[1..]);
      var t := FileTag(m);
      assert t == (if m[0] == ' ' then "_" else [m[0]]) + FileTag(m[1..]);
      forall i | 1 <= i < |m| ensures t[i] == if m[i] == ' ' then '_' else m[i] {
        assert m[1..][i - 1] == m[i];
      }
    }
  }

  /** The ministry the inner loop breaks at, if any. */
  function FirstTagged(ministries: seq<string>, name: string): Option<string> {
    if ministries == [] then None
    else if Contains(name, FileTag(ministries[0])) then Some(ministries[0])
    else FirstTagged(ministries[1..], name)
  }

  /** The group of a file name: the ministry found, or `"Unknown"` when none
      was found or the one found is the empty string (`if not ministry`). */
  function Assigned(ministries: seq<string>, name: string): string {
    match FirstTagged(ministries, name)
    case Some(m) => if m == [] then UnknownGroup else m
    case None => UnknownGroup
  }

  /** The group of a PDF path, by its file name. */
  function GroupOf(ministries: seq<string>, path: string): string {
    Assigned(ministries, DocumentProcessor.Basename(path))
  }

  /** The ministry found is the first whose tag occurs in the name; none is
      found exactly when no tag occurs. */
  lemma {:induction false} FirstTaggedSpec(ministries: seq<string>, name: string)
    ensures FirstTagged(ministries, name) == None <==>
              forall j | 0 <= j < |ministries| :: !Contains(name, FileTag(ministries[j]))
    ensures FirstTagged(ministries, name).Some? ==>
              exists j | 0 <= j < |ministries| ::
                ministries[j] == FirstTagged(ministries, name).value &&
                Contains(name, FileTag(ministries[j])) &&
                forall i | 0 <= i < j :: !Contains(name, FileTag(ministries[i]))
  {
    if ministries != [] && !Contains(name, FileTag(ministries[0])) {
      var rest := ministries[1..];
      FirstTaggedSpec(rest, name);
      assert forall j | 1 <= j < |ministries| :: ministries[j] == rest[j - 1];
      if FirstTagged(rest, name).Some? {
        var j :| 0 <= j < |rest| && rest[j] == FirstTagged(rest, name).value &&
                 Contains(name, FileTag(rest[j])) &&
                 forall i | 0 <= i < j :: !Contains(name, FileTag(rest[i]));
        assert ministries[j + 1] == rest[j];
      }
    }
  }

  /** A file that names a (non-empty) ministry goes to the first such ministry;
      a file that names none goes to `"Unknown"`. */
  lemma AssignedSpec(ministries: seq<string>, name: string)
    ensures (forall j | 0 <= j < |ministries| :: !Contains(name, FileTag(ministries[j]))) ==>
              Assigned(ministries, name) == UnknownGroup
    ensures Assigned(ministries, name) != UnknownGroup ==>
              exists j | 0 <= j < |ministries| ::
                ministries[j] == Assigned(ministries, name) &&
                Contains(name, FileTag(ministries[j])) &&
                forall i | 0 <= i < j :: !Contains(name, FileTag(ministries[i]))
  {
    FirstTaggedSpec(ministries, name);
  }

  /** The inner loop, with its `break`, and the `"Unknown"` fallback. */
  method MinistryForFile(ministries: seq<string>, name: string) returns (ministry: string)
    ensures ministry == Assigned(ministries, name)
  {
    var found: Option<string> := None;
    var k := 0;
    while k < |ministries|
      invariant 0 <= k <= |ministries|
      invariant found == None
      invariant FirstTagged(ministries, name) == FirstTagged(ministries[k..], name)
    {
      assert ministries[k..][1..] == ministries[k + 1..];
      if Contains(name, FileTag(ministries[k])) {
        found := Some(ministries[k]);
        assert found == FirstTagged(ministries, name);
        break;
      }
      k := k + 1;
    }
    if found.None? || found.value == [] {
      ministry := UnknownGroup;
    } else {
      ministry := found.value;
    }
  }

  /** Whether a PDF path belongs to the group `g`. */
  function InGroup(ministries: seq<string>, g: string): string -> bool {
    path => GroupOf(ministries, path) == g
  }

  /** The key order of `ministry_to_pdfs`: the groups in the order of their
      first PDF. */
  function GroupOrder(ministries: seq<string>, pdfFiles: seq<string>): seq<string> {
    if pdfFiles == [] then []
    else InsertKey(GroupOrder(ministries, pdfFiles[..|pdfFiles| - 1]), GroupOf(ministries, pdfFiles[|pdfFiles| - 1]))
  }

  /** Some PDF of the list is in group `g`. */
  predicate Grouped(ministries: seq<string>, pdfFiles: seq<string>, g: string) {
    exists p | p in pdfFiles :: GroupOf(ministries, p) == g
  }

  /** Every group is listed once, and the groups listed are exactly those of
      the PDFs. */
  lemma {:induction false} GroupOrderSpec(ministries: seq<string>, pdfFiles: seq<string>)
    ensures Distinct(GroupOrder(ministries, pdfFiles))
    ensures forall g :: g in GroupOrder(ministries, pdfFiles) <==> Grouped(ministries, pdfFiles, g)
  {
    if pdfFiles != [] {
      var ps, p := pdfFiles[..|pdfFiles| - 1], pdfFiles[|pdfFiles| - 1];
      assert pdfFiles == ps + [p];
      GroupOrderSpec(ministries, ps);
      InsertKeySpec(GroupOrder(ministries, ps), GroupOf(ministries, p));
      forall g ensures Grouped(ministries, pdfFiles, g) <==> Grouped(ministries, ps, g) || GroupOf(ministries, p) == g {
        if q :| q in pdfFiles && GroupOf(ministries, q) == g {
          if q != p {
            assert q in ps;
          }
        }
      }
    }
  }

  /** A PDF is in the group of its file name and in no other, and it is in
      one only if it was given. */
  lemma GroupMembership(ministries: seq<string>, pdfFiles: seq<string>, g: string)
    ensures forall p :: p in Filter(pdfFiles, InGroup(ministries, g)) <==> p in pdfFiles && GroupOf(ministries, p) == g
  {
    FilterComplete(pdfFiles, InGroup(ministries, g));
  }

  /** The groups split the PDF list: their sizes add up to the number of PDFs. */
  lemma {:induction false} GroupsPartition(ministries: seq<string>, pdfFiles: seq<string>, order: seq<string>)
    requires Distinct(order)
    requires forall p | p in pdfFiles :: GroupOf(ministries, p) in order
    ensures SumOf(order, GroupSize(ministries, pdfFiles)) == |pdfFiles|
  {
    if pdfFiles == [] {
      SumOfZero(order, GroupSize(ministries, pdfFiles));
    } else {
      var ps, p := pdfFiles[..|pdfFiles| - 1], pdfFiles[|pdfFiles| - 1];
      assert pdfFiles == ps + [p];
      assert forall q | q in ps :: q in pdfFiles;
      GroupsPartition(ministries, ps, order);
      var g := GroupOf(ministries, p);
      forall h | h in order ensures GroupSize(ministries, pdfFiles)(h) ==
                                   GroupSize(ministries, ps)(h) + (if h == g then 1 else 0) {
        FilterSnoc(ps, p, InGroup(ministries, h));
      }
      SumOfUpdate(order, GroupSize(ministries, ps), GroupSize(ministries, pdfFiles), g);
    }
  }

  /** The groups of `ministry_to_pdfs` hold every PDF once: their sizes add up
      to the number of PDFs. */
  lemma GroupsCoverPdfs(ministries: seq<string>, pdfFiles: seq<string>)
    ensures SumOf(GroupOrder(ministries, pdfFiles), GroupSize(ministries, pdfFiles)) == |pdfFiles|
  {
    GroupOrderSpec(ministries, pdfFiles);
    GroupsPartition(ministries, pdfFiles, GroupOrder(ministries, pdfFiles));
  }

  /** The size of group `g`. */
  function GroupSize(ministries: seq<string>, pdfFiles: seq<string>): string -> int {
    g => |Filter(pdfFiles, InGroup(ministries, g))|
  }

  lemma {:induction false} SumOfZero(xs: seq<string>, f: string -> int)
    requires forall x | x in xs :: f(x) == 0
    ensures SumOf(xs, f) == 0
  {
    if xs != [] {
      assert forall x | x in xs[..|xs| - 1] :: x in xs;
      SumOfZero(xs[..|xs| - 1], f);
    }
  }

  /** The grouping loop: `ministry_to_pdfs.setdefault(ministry, []).append(pdf_file)`
      for each PDF in turn. Its keys are the groups in order of first
      appearance and each group holds its PDFs in their original order. */
  method GroupByMinistry(ministries: seq<string>, pdfFiles: seq<string>)
    returns (order: seq<string>, groups: map<string, seq<string>>)
    ensures order == GroupOrder(ministries, pdfFiles)
    ensures forall g :: g in groups <==> g in order
    ensures forall g | g in groups :: groups[g] == Filter(pdfFiles, InGroup(ministries, g))
  {
    order, groups := [], map[];
    for i := 0 to |pdfFiles|
      invariant Grouping(ministries, pdfFiles[..i], order, groups)
    {
      var pdfFile := pdfFiles[i];
      assert pdfFiles[..i + 1] == pdfFiles[..i] + [pdfFile];
      var ministry := MinistryForFile(ministries, DocumentProcessor.Basename(pdfFile));
      var pdfs := if ministry in groups then groups[ministry] else [];
      GroupSnoc(ministries, pdfFiles[..i], pdfFile, order, groups);
      groups := groups[ministry := pdfs + [pdfFile]];
      order := InsertKey(order, ministry);
    }
    assert pdfFiles[..|pdfFiles|] == pdfFiles;
  }

  /** `order` and `groups` are the key order and the contents of
      `ministry_to_pdfs` after the PDFs `ps`. */
  ghost predicate Grouping(ministries: seq<string>, ps: seq<string>,
                           order: seq<string>, groups: map<string, seq<string>>) {
    order == GroupOrder(ministries, ps) &&
    (forall g :: g in groups <==> g in order) &&
    forall g | g in groups :: groups[g] == Filter(ps, InGroup(ministries, g))
  }

  /** One pass of the grouping loop keeps its invariant. */
  lemma GroupSnoc(ministries: seq<string>, ps: seq<string>, p: string,
                  order: seq<string>, groups: map<string, seq<string>>)
    requires Grouping(ministries, ps, order, groups)
    ensures var m := GroupOf(ministries, p);
            Grouping(ministries, ps + [p], InsertKey(order, m),
                     groups[m := (if m in groups then groups[m] else []) + [p]])
  {
    var m := GroupOf(ministries, p);
    var groups' := groups[m := (if m in groups then groups[m] else []) + [p]];
    assert (ps + [p])[..|ps|] == ps;
    GroupOrderSpec(ministries, ps);
    InsertKeySpec(order, m);
    forall g | g in groups' ensures groups'[g] == Filter(ps + [p], InGroup(ministries, g)) {
      FilterSnoc(ps, p, InGroup(ministries, g));
      if g == m && m !in groups {
        FilterNone(ps, InGroup(ministries, m));
      }
    }
  }

  /** Whether a group produced documents. */
  function HasDocuments(chunks: string -> nat): string -> bool {
    g => chunks(g) > 0
  }

  /** `chunks(g)` as a summand. */
  function ChunkCount(chunks: string -> nat): string -> int {
    g => chunks(g)
  }

  /** Whether `add_documents` raises for group `g`: it is called, because the
      group has documents, and `raises(g)`. */
  function GroupRaises(chunks: string -> nat, raises: string -> bool): string -> bool {
    g => chunks(g) > 0 && raises(g)
  }

  /** The position of the first group for which `stops` holds, or `|order|`. */
  function FirstStop(order: seq<string>, stops: string -> bool): (i: nat)
    ensures i <= |order|
  {
    if order == [] || stops(order[0]) then 0 else 1 + FirstStop(order[1..], stops)
  }

  /** No group before the stop stops, and the stop, unless past the end, does. */
  lemma {:induction false} FirstStopSpec(order: seq<string>, stops: string -> bool)
    ensures var i := FirstStop(order, stops);
            (forall k | 0 <= k < i :: !stops(order[k])) && (i < |order| ==> stops(order[i]))
  {
    if order != [] && !stops(order[0]) {
      FirstStopSpec(order[1..], stops);
      var i := FirstStop(order, stops);
      assert forall k | 1 <= k < i :: order[k] == order[1..][k - 1];
    }
  }

  lemma FirstStopIs(order: seq<string>, stops: string -> bool, i: nat)
    requires i <= |order|
    requires forall k | 0 <= k < i :: !stops(order[k])
    requires i < |order| ==> stops(order[i])
    ensures FirstStop(order, stops) == i
  {
    FirstStopSpec(order, stops);
  }

  /** The indexing loop: `chunks(g)` is how many documents `process_pdf_files`
      gives for group `g`; a group with none is skipped, the others are added
      to the store, in order, and their documents counted. An `add_documents`
      that raises is not caught: the loop, and the script, end there, and the
      group and those after it are not counted. */
  method IndexGroups(order: seq<string>, chunks: string -> nat, raises: string -> bool)
    returns (added: seq<string>, totalChunks: nat, raised: bool)
    ensures var stop := FirstStop(order, GroupRaises(chunks, raises));
            (raised <==> stop < |order|) &&
            added == Filter(order[..stop], HasDocuments(chunks))
    ensures !raised ==> added == Filter(order, HasDocuments(chunks))
    ensures totalChunks == SumOf(added, ChunkCount(chunks))
  {
    added, totalChunks, raised := [], 0, false;
    ghost var stops := GroupRaises(chunks, raises);
    for i := 0 to |order|
      invariant forall k | 0 <= k < i :: !stops(order[k])
      invariant added == Filter(order[..i], HasDocuments(chunks))
      invariant totalChunks == SumOf(added, ChunkCount(chunks))
    {
      var ministry := order[i];
      var documents := chunks(ministry);
      if documents > 0 && raises(ministry) {
        FirstStopIs(order, stops, i);
        return added, totalChunks, true;
      }
      IndexStep(order, i, chunks);
      if documents > 0 {
        SumOfSnoc(added, ministry, ChunkCount(chunks));
        added := added + [ministry];
        totalChunks := totalChunks + documents;
      }
    }
    assert order[..|order|] == order;
    FirstStopIs(order, stops, |order|);
  }

  lemma IndexStep(order: seq<string>, i: nat, chunks: string -> nat)
    requires i < |order|
    ensures Filter(order[..i + 1], HasDocuments(chunks)) ==
            Filter(order[..i], HasDocuments(chunks)) + if chunks(order[i]) > 0 then [order[i]] else []
  {
    assert order[..i + 1] == order[..i] + [order[i]];
    FilterSnoc(order[..i], order[i], HasDocuments(chunks));
  }

  /** Skipping the groups without documents loses nothing: `total_chunks` is
      the sum over all groups. */
  lemma {:induction false} SkippedGroupsAddNothing(order: seq<string>, chunks: string -> nat)
    ensures SumOf(Filter(order, HasDocuments(chunks)), ChunkCount(chunks)) == SumOf(order, ChunkCount(chunks))
  {
    if order != [] {
      var os, g := order[..|order| - 1], order[|order| - 1];
      assert order == os + [g];
      SkippedGroupsAddNothing(os, chunks);
      FilterSnoc(os, g, HasDocuments(chunks));
      SumOfSnoc(os, g, ChunkCount(chunks));
      if chunks(g) > 0 {
        SumOfSnoc(Filter(os, HasDocuments(chunks)), g, ChunkCount(chunks));
      } else {
        assert Filter(order, HasDocuments(chunks)) == Filter(os, HasDocuments(chunks));
        assert ChunkCount(chunks)(g) == 0;
      }
    }
  }
}
