/** The bookkeeping of `scripts/create_ministry_database.py`: the per-ministry PDF
    counts, the redistribution that gives each empty ministry a few PDFs of the
    largest one, and the skip/count loop that builds the vector database.
    Directory globs, file copies and the document pipeline are inputs. */
module MinistryDatabase {
  import opened Seqs
  import Config

  // ---------------------------------------------------------------------------
  // The counts ledger
  // ---------------------------------------------------------------------------

  /** The key order of `{ministry: 0 for ministry in ministries}`. */
  function ComprehensionKeys(ministries: seq<string>): seq<string> {
    if ministries == [] then []
    else InsertKey(ComprehensionKeys(ministries[..|ministries| - 1]), ministries[|ministries| - 1])
  }

  /** The key order of `ministry_counts`: the comprehension, then `"Unknown Ministry"`. */
  function LedgerKeys(ministries: seq<string>): seq<string> {
    InsertKey(ComprehensionKeys(ministries), Config.UnknownMinistry)
  }

  lemma {:induction false} ComprehensionKeysSpec(ministries: seq<string>)
    ensures Distinct(ComprehensionKeys(ministries))
    ensures forall m :: m in ComprehensionKeys(ministries) <==> m in ministries
    ensures Distinct(ministries) ==> ComprehensionKeys(ministries) == ministries
  {
    if ministries != [] {
      var ms, m := ministries[..|ministries| - 1], ministries[|ministries| - 1];
      assert ministries == ms + [m];
      ComprehensionKeysSpec(ms);
      InsertKeySpec(ComprehensionKeys(ms), m);
      if Distinct(ministries) {
        assert Distinct(ms);
        assert m !in ms by {
          forall i | 0 <= i < |ms| ensures ms[i] != m {
            assert ministries[i] == ms[i];
          }
        }
      }
    }
  }

  /** The ledger has one key per configured ministry and one for
      `"Unknown Ministry"`, each once; for the configured list, which has no
      repetition and no `"Unknown Ministry"`, it is that list and then
      `"Unknown Ministry"`. */
  lemma LedgerKeysSpec(ministries: seq<string>)
    ensures Distinct(LedgerKeys(ministries))
    ensures forall m :: m in LedgerKeys(ministries) <==> m in ministries || m == Config.UnknownMinistry
    ensures Distinct(ministries) && Config.UnknownMinistry !in ministries ==>
              LedgerKeys(ministries) == ministries + [Config.UnknownMinistry]
  {
    ComprehensionKeysSpec(ministries);
    InsertKeySpec(ComprehensionKeys(ministries), Config.UnknownMinistry);
  }

  /** The `stats` dict of the creator. */
  datatype Stats = Stats(totalPdfs: int, classifiedPdfs: int, unknownPdfs: int,
                         ministriesWithPdfs: int, totalChunks: int, errors: int)

  /** The count of `m`, 0 for a name the ledger does not hold. */
  function CountOf(counts: map<string, int>): string -> int {
    m => if m in counts then counts[m] else 0
  }

  /** The sum of the counts of `keys`. */
  function Total(keys: seq<string>, counts: map<string, int>): int {
    SumOf(keys, CountOf(counts))
  }

  // ---------------------------------------------------------------------------
  // verify_distribution and _redistribute_pdfs
  // ---------------------------------------------------------------------------

  /** A ministry with no PDFs; `"Unknown Ministry"` never is one. */
  predicate IsEmpty(counts: map<string, int>, m: string) {
    m in counts && counts[m] == 0 && m != Config.UnknownMinistry
  }

  /** A ministry with more than 10 PDFs to give; never `"Unknown Ministry"`. */
  predicate IsDonor(counts: map<string, int>, m: string) {
    m in counts && counts[m] > 10 && m != Config.UnknownMinistry
  }

  /** A ministry whose count is not zero. */
  predicate HasPdfs(counts: map<string, int>, m: string) {
    m in counts && counts[m] != 0
  }

  /** A ministry `classify_pdfs` reports as having PDFs: a positive count,
      "Unknown Ministry" aside. */
  function ReportedTest(counts: map<string, int>): string -> bool {
    m => m in counts && counts[m] > 0 && m != Config.UnknownMinistry
  }

  function EmptyTest(counts: map<string, int>): string -> bool {
    m => IsEmpty(counts, m)
  }

  function DonorTest(counts: map<string, int>): string -> bool {
    m => IsDonor(counts, m)
  }

  /** `empty_ministries`, in ledger order. */
  function EmptyMinistries(keys: seq<string>, counts: map<string, int>): seq<string> {
    Filter(keys, EmptyTest(counts))
  }

  /** `donor_ministries`, in ledger order. */
  function DonorMinistries(keys: seq<string>, counts: map<string, int>): seq<string> {
    Filter(keys, DonorTest(counts))
  }

  /** `max(donor_ministries, key=lambda m: ministry_counts[m])`: Python keeps the
      first of several maxima. */
  function MaxDonor(donors: seq<string>, counts: map<string, int>): (d: string)
    requires donors != [] && forall m | m in donors :: m in counts
    ensures d in donors
  {
    if |donors| == 1 then donors[0]
    else
      var best := MaxDonor(donors[..|donors| - 1], counts);
      if counts[donors[|donors| - 1]] > counts[best] then donors[|donors| - 1] else best
  }

  /** The donor has the largest count. */
  lemma {:induction false} MaxDonorIsMax(donors: seq<string>, counts: map<string, int>)
    requires donors != [] && forall m | m in donors :: m in counts
    ensures forall m | m in donors :: counts[m] <= counts[MaxDonor(donors, counts)]
  {
    if |donors| > 1 {
      var ds, last := donors[..|donors| - 1], donors[|donors| - 1];
      assert forall m | m in ds :: m in donors;
      MaxDonorIsMax(ds, counts);
      forall m | m in donors ensures m in ds || m == last {
        var k :| 0 <= k < |donors| && donors[k] == m;
        if k < |ds| { assert ds[k] == m; }
      }
    }
  }

  /** The donor is at the first index holding the largest count. */
  lemma {:induction false} MaxDonorIndex(donors: seq<string>, counts: map<string, int>) returns (i: nat)
    requires donors != [] && forall m | m in donors :: m in counts
    ensures i < |donors| && donors[i] == MaxDonor(donors, counts)
    ensures forall j | 0 <= j < i :: counts[donors[j]] < counts[donors[i]]
  {
    if |donors| == 1 {
      i := 0;
    } else {
      var ds, last := donors[..|donors| - 1], donors[|donors| - 1];
      assert forall m | m in ds :: m in donors;
      MaxDonorIsMax(ds, counts);
      var best := MaxDonor(ds, counts);
      if counts[last] > counts[best] {
        i := |donors| - 1;
        forall j | 0 <= j < i ensures counts[donors[j]] < counts[last] {
          assert donors[j] == ds[j] && ds[j] in ds;
        }
      } else {
        i := MaxDonorIndex(ds, counts);
        assert forall j | 0 <= j <= i :: donors[j] == ds[j];
      }
    }
  }

  /** The counts and the error count that `_redistribute_pdfs` updates. */
  datatype Ledger = Ledger(counts: map<string, int>, errors: int)

  /** How many of the copies `0 .. attempts - 1` succeed. */
  function Successes(attempts: nat, ok: nat -> bool): (n: nat)
    ensures n <= attempts
  {
    if attempts == 0 then 0 else Successes(attempts - 1, ok) + (if ok(attempts - 1) then 1 else 0)
  }

  /** The copy loop for one empty ministry as evidently intended (the counts
      update at the end of the `try` body reached): copy `j` of `attempts`
      succeeds when `ok(j)`; a success moves one from the donor's count to the
      recipient's, a failure adds one error. */
  function Copies(l: Ledger, donor: string, recipient: string, attempts: nat, ok: nat -> bool): (r: Ledger)
    requires donor in l.counts && recipient in l.counts
    ensures r.counts.Keys == l.counts.Keys
  {
    if attempts == 0 then l
    else
      var p := Copies(l, donor, recipient, attempts - 1, ok);
      if ok(attempts - 1) then
        var c := p.counts[donor := p.counts[donor] - 1];
        Ledger(c[recipient := c[recipient] + 1], p.errors)
      else Ledger(p.counts, p.errors + 1)
  }

  /** The loop over the empty ministries: for the `i`-th, `found(i)` PDFs are in
      the directory of the current largest donor and the first `min(3, found(i))`
      are copied, copy `j` succeeding when `copyOk(i, j)`. */
  function Redistributed(l: Ledger, empties: seq<string>, donors: seq<string>,
                         found: nat -> nat, copyOk: (nat, nat) -> bool): (r: Ledger)
    requires donors != []
    requires forall m | m in empties :: m in l.counts
    requires forall m | m in donors :: m in l.counts
    ensures r.counts.Keys == l.counts.Keys
  {
    if empties == [] then l
    else
      var i := |empties| - 1;
      assert forall m | m in empties[..i] :: m in empties;
      var p := Redistributed(l, empties[..i], donors, found, copyOk);
      var donor := MaxDonor(donors, p.counts);
      if found(i) == 0 then p
      else Copies(p, donor, empties[i], Min(3, found(i)), (j: nat) => copyOk(i, j))
  }

  /** `_redistribute_pdfs(empty_ministries)` as evidently intended: the donors
      are fixed once, from the counts before any copy; with none, nothing
      changes. */
  function RedistributePdfs(l: Ledger, keys: seq<string>, empties: seq<string>,
                            found: nat -> nat, copyOk: (nat, nat) -> bool): (r: Ledger)
    requires forall m | m in empties :: m in l.counts
    ensures r.counts.Keys == l.counts.Keys
  {
    var donors := DonorMinistries(keys, l.counts);
    if donors == [] then l else Redistributed(l, empties, donors, found, copyOk)
  }

  // ---------------------------------------------------------------------------
  // The redistribution as the code runs it
  // ---------------------------------------------------------------------------

  /** The copy loop for one empty ministry as written: the metadata dict built
      after `shutil.copy2` reads `Config.CURRENT_TIME`, which the configuration
      never defines, so every attempt raises, whether the copy itself failed or
      succeeded, before the counts are updated. Each attempt adds one error. */
  function CopiesAsWritten(l: Ledger, attempts: nat): (r: Ledger)
    ensures r.counts == l.counts
  {
    if attempts == 0 then l
    else
      var p := CopiesAsWritten(l, attempts - 1);
      Ledger(p.counts, p.errors + 1)
  }

  /** The loop over the empty ministries as written: the `i`-th empty ministry
      with `found(i)` PDFs at the donor attempts `min(3, found(i))` copies. */
  function RedistributedAsWritten(l: Ledger, empties: seq<string>, found: nat -> nat): (r: Ledger)
    ensures r.counts == l.counts
  {
    if empties == [] then l
    else
      var i := |empties| - 1;
      var p := RedistributedAsWritten(l, empties[..i], found);
      if found(i) == 0 then p else CopiesAsWritten(p, Min(3, found(i)))
  }

  /** `_redistribute_pdfs(empty_ministries)` as written: with no donor nothing
      happens. */
  function RedistributePdfsAsWritten(l: Ledger, keys: seq<string>, empties: seq<string>, found: nat -> nat): (r: Ledger)
    ensures r.counts == l.counts
  {
    if DonorMinistries(keys, l.counts) == [] then l else RedistributedAsWritten(l, empties, found)
  }

  /** How many copies the first `n` empty ministries attempt. */
  function AttemptsOf(found: nat -> nat, n: nat): nat {
    if n == 0 then 0 else AttemptsOf(found, n - 1) + Min(3, found(n - 1))
  }

  /** Every attempt of a copy loop as written is an error. */
  lemma {:induction false} CopiesAsWrittenSpec(l: Ledger, attempts: nat)
    ensures CopiesAsWritten(l, attempts) == Ledger(l.counts, l.errors + attempts)
  {
    if attempts > 0 {
      CopiesAsWrittenSpec(l, attempts - 1);
    }
  }

  lemma {:induction false} RedistributedAsWrittenSpec(l: Ledger, empties: seq<string>, found: nat -> nat)
    ensures RedistributedAsWritten(l, empties, found) == Ledger(l.counts, l.errors + AttemptsOf(found, |empties|))
  {
    if empties != [] {
      var i := |empties| - 1;
      RedistributedAsWrittenSpec(l, empties[..i], found);
      CopiesAsWrittenSpec(RedistributedAsWritten(l, empties[..i], found), Min(3, found(i)));
    }
  }

  /** The redistribution as written moves nothing: every count is what it was,
      so every empty ministry is still empty, and the errors grow by the number
      of attempted copies, up to 3 per empty ministry, when there is a donor. */
  lemma RedistributePdfsAsWrittenSpec(keys: seq<string>, l: Ledger, found: nat -> nat)
    ensures var empties := EmptyMinistries(keys, l.counts);
            var r := RedistributePdfsAsWritten(l, keys, empties, found);
            r.counts == l.counts &&
            EmptyMinistries(keys, r.counts) == empties &&
            r.errors == l.errors + (if DonorMinistries(keys, l.counts) == [] then 0 else AttemptsOf(found, |empties|)) &&
            l.errors <= r.errors <= l.errors + 3 * |empties|
  {
    var empties := EmptyMinistries(keys, l.counts);
    if DonorMinistries(keys, l.counts) != [] {
      RedistributedAsWrittenSpec(l, empties, found);
      AttemptsBound(found, |empties|);
    }
  }

  /** At most 3 attempts per empty ministry. */
  lemma {:induction false} AttemptsBound(found: nat -> nat, n: nat)
    ensures AttemptsOf(found, n) <= 3 * n
  {
    if n > 0 {
      AttemptsBound(found, n - 1);
    }
  }

  // ---------------------------------------------------------------------------
  // Properties of the redistribution as evidently intended
  // ---------------------------------------------------------------------------

  /** One copy loop moves exactly its successes from donor to recipient and
      counts its failures as errors. */
  lemma {:induction false} CopiesSpec(l: Ledger, donor: string, recipient: string, attempts: nat, ok: nat -> bool)
    requires donor in l.counts && recipient in l.counts && donor != recipient
    ensures var r := Copies(l, donor, recipient, attempts, ok);
            var s := Successes(attempts, ok);
            r.counts[donor] == l.counts[donor] - s &&
            r.counts[recipient] == l.counts[recipient] + s &&
            r.errors == l.errors + (attempts - s)
  {
    if attempts > 0 {
      CopiesSpec(l, donor, recipient, attempts - 1, ok);
    }
  }

  /** A copy loop changes no count but the donor's and the recipient's. */
  lemma {:induction false} CopiesFrame(l: Ledger, donor: string, recipient: string, attempts: nat, ok: nat -> bool)
    requires donor in l.counts && recipient in l.counts
    ensures var r := Copies(l, donor, recipient, attempts, ok);
            forall m | m in l.counts && m != donor && m != recipient :: r.counts[m] == l.counts[m]
  {
    if attempts > 0 {
      CopiesFrame(l, donor, recipient, attempts - 1, ok);
    }
  }

  /** A single successful copy keeps the total of the counts. */
  lemma MoveOneTotal(keys: seq<string>, counts: map<string, int>, donor: string, recipient: string)
    requires Distinct(keys) && donor in keys && recipient in keys
    requires donor in counts && recipient in counts
    ensures var c := counts[donor := counts[donor] - 1];
            Total(keys, c[recipient := c[recipient] + 1]) == Total(keys, counts)
  {
    var c := counts[donor := counts[donor] - 1];
    var c' := c[recipient := c[recipient] + 1];
    SumOfUpdate(keys, CountOf(counts), CountOf(c), donor);
    SumOfUpdate(keys, CountOf(c), CountOf(c'), recipient);
  }

  lemma {:induction false} CopiesTotal(keys: seq<string>, l: Ledger, donor: string, recipient: string,
                                       attempts: nat, ok: nat -> bool)
    requires Distinct(keys) && donor in keys && recipient in keys
    requires donor in l.counts && recipient in l.counts
    ensures Total(keys, Copies(l, donor, recipient, attempts, ok).counts) == Total(keys, l.counts)
  {
    if attempts > 0 {
      CopiesTotal(keys, l, donor, recipient, attempts - 1, ok);
      var p := Copies(l, donor, recipient, attempts - 1, ok);
      if ok(attempts - 1) {
        MoveOneTotal(keys, p.counts, donor, recipient);
      }
    }
  }

  /** Copying never creates or destroys a PDF in the ledger: the total of the
      counts is what it was. */
  lemma {:induction false} RedistributedTotal(keys: seq<string>, l: Ledger, empties: seq<string>, donors: seq<string>,
                                              found: nat -> nat, copyOk: (nat, nat) -> bool)
    requires Distinct(keys) && donors != []
    requires forall m | m in empties :: m in l.counts && m in keys
    requires forall m | m in donors :: m in l.counts && m in keys
    ensures Total(keys, Redistributed(l, empties, donors, found, copyOk).counts) == Total(keys, l.counts)
  {
    if empties != [] {
      var i := |empties| - 1;
      assert forall m | m in empties[..i] :: m in empties;
      RedistributedTotal(keys, l, empties[..i], donors, found, copyOk);
      var p := Redistributed(l, empties[..i], donors, found, copyOk);
      if found(i) != 0 {
        CopiesTotal(keys, p, MaxDonor(donors, p.counts), empties[i], Min(3, found(i)), (j: nat) => copyOk(i, j));
      }
    }
  }

  /** A ministry that is neither empty nor a donor keeps its count. */
  lemma {:induction false} RedistributedOthers(l: Ledger, empties: seq<string>, donors: seq<string>,
                                               found: nat -> nat, copyOk: (nat, nat) -> bool)
    requires donors != []
    requires forall m | m in empties :: m in l.counts
    requires forall m | m in donors :: m in l.counts
    ensures var r := Redistributed(l, empties, donors, found, copyOk);
            forall m | m in l.counts && m !in empties && m !in donors :: r.counts[m] == l.counts[m]
  {
    if empties != [] {
      var i := |empties| - 1;
      assert forall m | m in empties[..i] :: m in empties;
      RedistributedOthers(l, empties[..i], donors, found, copyOk);
      var p := Redistributed(l, empties[..i], donors, found, copyOk);
      if found(i) != 0 {
        CopiesFrame(p, MaxDonor(donors, p.counts), empties[i], Min(3, found(i)), (j: nat) => copyOk(i, j));
      }
    }
  }

  /** An empty ministry, served once, gains between 0 and 3. */
  lemma {:induction false} RedistributedRecipients(l: Ledger, empties: seq<string>, donors: seq<string>,
                                                   found: nat -> nat, copyOk: (nat, nat) -> bool)
    requires donors != [] && Distinct(empties)
    requires forall m | m in empties :: m in l.counts && m !in donors
    requires forall m | m in donors :: m in l.counts
    ensures var r := Redistributed(l, empties, donors, found, copyOk);
            forall m | m in empties :: l.counts[m] <= r.counts[m] <= l.counts[m] + 3
  {
    if empties != [] {
      var i := |empties| - 1;
      var es, e := empties[..i], empties[i];
      assert empties == es + [e];
      assert forall m | m in es :: m in empties;
      assert Distinct(es);
      assert e !in es by {
        forall k | 0 <= k < i ensures es[k] != e {
          assert empties[k] == es[k];
        }
      }
      RedistributedRecipients(l, es, donors, found, copyOk);
      RedistributedOthers(l, es, donors, found, copyOk);
      var p := Redistributed(l, es, donors, found, copyOk);
      if found(i) != 0 {
        CopiesSpec(p, MaxDonor(donors, p.counts), e, Min(3, found(i)), (j: nat) => copyOk(i, j));
        CopiesFrame(p, MaxDonor(donors, p.counts), e, Min(3, found(i)), (j: nat) => copyOk(i, j));
      }
    }
  }

  /** A donor only loses, at most 3 per empty ministry, and the errors grow by
      at most 3 per empty ministry. */
  lemma {:induction false} RedistributedDonors(l: Ledger, empties: seq<string>, donors: seq<string>,
                                               found: nat -> nat, copyOk: (nat, nat) -> bool)
    requires donors != []
    requires forall m | m in empties :: m in l.counts && m !in donors
    requires forall m | m in donors :: m in l.counts
    ensures var r := Redistributed(l, empties, donors, found, copyOk);
            (forall m | m in donors :: l.counts[m] - 3 * |empties| <= r.counts[m] <= l.counts[m]) &&
            l.errors <= r.errors <= l.errors + 3 * |empties|
  {
    if empties != [] {
      var i := |empties| - 1;
      assert forall m | m in empties[..i] :: m in empties;
      RedistributedDonors(l, empties[..i], donors, found, copyOk);
      var p := Redistributed(l, empties[..i], donors, found, copyOk);
      if found(i) != 0 {
        CopiesSpec(p, MaxDonor(donors, p.counts), empties[i], Min(3, found(i)), (j: nat) => copyOk(i, j));
        CopiesFrame(p, MaxDonor(donors, p.counts), empties[i], Min(3, found(i)), (j: nat) => copyOk(i, j));
      }
    }
  }

  /** The redistribution as `verify_distribution` calls it, on the empty
      ministries of a ledger: the total is kept; with no donor nothing changes;
      otherwise the bounds above hold. */
  lemma RedistributePdfsSpec(keys: seq<string>, l: Ledger, found: nat -> nat, copyOk: (nat, nat) -> bool)
    requires Distinct(keys) && forall m :: m in l.counts <==> m in keys
    ensures var empties := EmptyMinistries(keys, l.counts);
            var donors := DonorMinistries(keys, l.counts);
            var r := RedistributePdfs(l, keys, empties, found, copyOk);
            Total(keys, r.counts) == Total(keys, l.counts) &&
            (donors == [] ==> r == l) &&
            (forall m | m in keys && m !in empties && m !in donors :: r.counts[m] == l.counts[m]) &&
            (forall m | m in empties :: 0 <= r.counts[m] <= 3) &&
            (forall m | m in donors :: l.counts[m] - 3 * |empties| <= r.counts[m] <= l.counts[m]) &&
            l.errors <= r.errors <= l.errors + 3 * |empties|
  {
    var empties := EmptyMinistries(keys, l.counts);
    var donors := DonorMinistries(keys, l.counts);
    FilterDistinct(keys, EmptyTest(l.counts));
    if donors != [] {
      RedistributedTotal(keys, l, empties, donors, found, copyOk);
      RedistributedOthers(l, empties, donors, found, copyOk);
      RedistributedRecipients(l, empties, donors, found, copyOk);
      RedistributedDonors(l, empties, donors, found, copyOk);
    }
  }

  /** After a redistribution a ministry is empty only if it was empty before or
      was a donor drained to zero. */
  lemma StillEmpty(keys: seq<string>, l: Ledger, found: nat -> nat, copyOk: (nat, nat) -> bool)
    requires Distinct(keys) && forall m :: m in l.counts <==> m in keys
    ensures var empties := EmptyMinistries(keys, l.counts);
            var donors := DonorMinistries(keys, l.counts);
            var r := RedistributePdfs(l, keys, empties, found, copyOk);
            forall m | m in EmptyMinistries(keys, r.counts) :: m in empties || m in donors
  {
    var empties := EmptyMinistries(keys, l.counts);
    var donors := DonorMinistries(keys, l.counts);
    var r := RedistributePdfs(l, keys, empties, found, copyOk);
    RedistributePdfsSpec(keys, l, found, copyOk);
    FilterComplete(keys, EmptyTest(l.counts));
    forall m | m in EmptyMinistries(keys, r.counts) ensures m in empties || m in donors {
      if m !in empties && m !in donors {
        assert r.counts[m] == l.counts[m];
        assert IsEmpty(l.counts, m);
      }
    }
  }

  /** `ministries_with_pdfs` as `verify_distribution` computes it, the number of
      configured ministries minus the empty ones, is the number of configured
      ministries whose count is not zero, for a ledger keyed by the configured
      list and `"Unknown Ministry"`. */
  lemma MinistriesWithPdfsMeaning(ministries: seq<string>, counts: map<string, int>)
    requires Config.UnknownMinistry !in ministries
    requires forall m | m in ministries :: m in counts
    ensures |ministries| - |EmptyMinistries(ministries + [Config.UnknownMinistry], counts)| ==
            |Filter(ministries, m => HasPdfs(counts, m))|
  {
    FilterSnoc(ministries, Config.UnknownMinistry, EmptyTest(counts));
    FilterPartition(ministries, EmptyTest(counts), m => HasPdfs(counts, m));
  }

  // ---------------------------------------------------------------------------
  // build_vector_database
  // ---------------------------------------------------------------------------

  /** What indexing one ministry gives: `process_ministry_pdfs` raised, or it
      returned `documents` documents and `add_documents` then completed
      (`stored`) or raised. */
  datatype Outcome = ProcessFailed | Processed(documents: nat, stored: bool)

  /** The loop's running state: the registry of indexed ministries,
      `indexed_ministries`, `total_chunks` and `stats["errors"]`. */
  datatype Tally = Tally(registry: set<string>, indexed: nat, chunks: nat, errors: int)

  /** One pass of the loop body for `ministry`. */
  function BuildStep(t: Tally, ministry: string, forceRebuild: bool, outcome: string -> Outcome): Tally {
    if !forceRebuild && ministry in t.registry then t.(indexed := t.indexed + 1)
    else match outcome(ministry)
      case ProcessFailed => t.(errors := t.errors + 1)
      case Processed(n, stored) =>
        if n == 0 then t
        else if !stored then t.(errors := t.errors + 1)
        else Tally(if ministry != "" then t.registry + {ministry} else t.registry,
                   t.indexed + 1, t.chunks + n, t.errors)
  }

  /** The loop over the configured ministries, in order. */
  function BuildTally(ministries: seq<string>, forceRebuild: bool, t: Tally, outcome: string -> Outcome): Tally {
    if ministries == [] then t
    else BuildStep(BuildTally(ministries[..|ministries| - 1], forceRebuild, t, outcome),
                   ministries[|ministries| - 1], forceRebuild, outcome)
  }

  /** A ministry whose documents were all stored. */
  predicate Stored(o: Outcome) {
    o.Processed? && o.documents > 0 && o.stored
  }

  /** A ministry whose indexing raised. */
  predicate Raised(o: Outcome) {
    o.ProcessFailed? || (o.documents > 0 && !o.stored)
  }

  function StoredChunks(outcome: string -> Outcome): string -> int {
    m => if Stored(outcome(m)) then outcome(m).documents else 0
  }

  function StoredTest(outcome: string -> Outcome): string -> bool {
    m => Stored(outcome(m))
  }

  function RaisedTest(outcome: string -> Outcome): string -> bool {
    m => Raised(outcome(m))
  }

  /** Without `--force`, a run over ministries that are all indexed already
      skips every one of them but counts each as indexed. */
  lemma {:induction false} BuildTallySkipsIndexed(ministries: seq<string>, t: Tally, outcome: string -> Outcome)
    requires forall m | m in ministries :: m in t.registry
    ensures BuildTally(ministries, false, t, outcome) == t.(indexed := t.indexed + |ministries|)
  {
    if ministries != [] {
      assert forall m | m in ministries[..|ministries| - 1] :: m in ministries;
      BuildTallySkipsIndexed(ministries[..|ministries| - 1], t, outcome);
    }
  }

  /** With `--force` nothing is skipped: `total_chunks` is the sum of the
      documents of the ministries whose documents were stored, those are the
      ones counted as indexed, and every ministry whose indexing raised adds
      one error. */
  lemma {:induction false} BuildTallyForced(ministries: seq<string>, t: Tally, outcome: string -> Outcome)
    ensures var r := BuildTally(ministries, true, t, outcome);
            r.chunks == t.chunks + SumOf(ministries, StoredChunks(outcome)) &&
            r.indexed == t.indexed + |Filter(ministries, StoredTest(outcome))| &&
            r.errors == t.errors + |Filter(ministries, RaisedTest(outcome))|
  {
    if ministries != [] {
      BuildTallyForced(ministries[..|ministries| - 1], t, outcome);
    }
  }

  /** In any run, each ministry adds at most one to the indexed count or to the
      errors, chunks are only added for stored documents, and the registry only
      grows. */
  lemma {:induction false} BuildTallyBounds(ministries: seq<string>, forceRebuild: bool, t: Tally, outcome: string -> Outcome)
    ensures var r := BuildTally(ministries, forceRebuild, t, outcome);
            (r.indexed - t.indexed) + (r.errors - t.errors) <= |ministries| &&
            t.errors <= r.errors &&
            t.chunks <= r.chunks <= t.chunks + SumOf(ministries, StoredChunks(outcome)) &&
            t.registry <= r.registry
  {
    if ministries != [] {
      BuildTallyBounds(ministries[..|ministries| - 1], forceRebuild, t, outcome);
    }
  }

  /** The registry only grows, and only by ministries of the loop. */
  lemma {:induction false} BuildTallyRegistry(ministries: seq<string>, forceRebuild: bool, t: Tally, outcome: string -> Outcome)
    ensures var r := BuildTally(ministries, forceRebuild, t, outcome);
            t.registry <= r.registry && forall m | m in r.registry :: m in t.registry || m in ministries
  {
    if ministries != [] {
      var ms := ministries[..|ministries| - 1];
      assert forall m | m in ms :: m in ministries;
      BuildTallyRegistry(ms, forceRebuild, t, outcome);
    }
  }

  /** One non-forced step for a ministry whose registry membership is the
      starting one. */
  lemma BuildStepUnforced(p: Tally, m: string, registry: set<string>, outcome: string -> Outcome)
    requires m in p.registry <==> m in registry
    ensures var r := BuildStep(p, m, false, outcome);
            r.indexed == p.indexed + (if InRegistry(registry)(m) then 1 else 0) +
                         (if FreshStored(registry, outcome)(m) then 1 else 0) &&
            r.chunks == p.chunks + (if Fresh(registry)(m) then StoredChunks(outcome)(m) else 0) &&
            r.errors == p.errors + (if FreshRaised(registry, outcome)(m) then 1 else 0)
  {
  }

  /** The non-forced loop is exact when the configured ministries are
      distinct: the ones already in the registry are each counted as indexed,
      and of the others those whose documents were stored are counted too,
      their documents add up to `total_chunks`, and those whose indexing
      raised are the errors. */
  lemma {:induction false} BuildTallyUnforced(ministries: seq<string>, t: Tally, outcome: string -> Outcome)
    requires Distinct(ministries)
    ensures var r := BuildTally(ministries, false, t, outcome);
            r.indexed == t.indexed + |Filter(ministries, InRegistry(t.registry))| +
                         |Filter(ministries, FreshStored(t.registry, outcome))| &&
            r.chunks == t.chunks + SumOf(Filter(ministries, Fresh(t.registry)), StoredChunks(outcome)) &&
            r.errors == t.errors + |Filter(ministries, FreshRaised(t.registry, outcome))|
  {
    if ministries != [] {
      var ms, m := ministries[..|ministries| - 1], ministries[|ministries| - 1];
      assert ministries == ms + [m];
      assert Distinct(ms);
      assert m !in ms by {
        forall k | 0 <= k < |ms| ensures ms[k] != m {
          assert ministries[k] == ms[k];
        }
      }
      BuildTallyUnforced(ms, t, outcome);
      BuildTallyRegistry(ms, false, t, outcome);
      var p := BuildTally(ms, false, t, outcome);
      BuildStepUnforced(p, m, t.registry, outcome);
      FilterSnoc(ms, m, InRegistry(t.registry));
      FilterSnoc(ms, m, FreshStored(t.registry, outcome));
      FilterSnoc(ms, m, Fresh(t.registry));
      FilterSnoc(ms, m, FreshRaised(t.registry, outcome));
      if m !in t.registry {
        SumOfSnoc(Filter(ms, Fresh(t.registry)), m, StoredChunks(outcome));
      } else {
        assert Filter(ministries, Fresh(t.registry)) == Filter(ms, Fresh(t.registry));
      }
    }
  }

  function InRegistry(registry: set<string>): string -> bool {
    m => m in registry
  }

  function Fresh(registry: set<string>): string -> bool {
    m => m !in registry
  }

  function FreshStored(registry: set<string>, outcome: string -> Outcome): string -> bool {
    m => m !in registry && Stored(outcome(m))
  }

  function FreshRaised(registry: set<string>, outcome: string -> Outcome): string -> bool {
    m => m !in registry && Raised(outcome(m))
  }

  // ---------------------------------------------------------------------------
  // The creator object
  // ---------------------------------------------------------------------------

  /** `MinistryDatabaseCreator`: the ledger `ministry_counts` (its keys in
      insertion order and its values) and the `stats` dict. `ministries` is
      `Config.MINISTRIES`. */
  class MinistryDatabaseCreator {
    const forceRebuild: bool
    const ministries: seq<string>
    var keys: seq<string>
    var counts: map<string, int>
    var stats: Stats

    ghost predicate Valid()
      reads this
    {
      Distinct(keys) && forall m :: m in counts <==> m in keys
    }

    /** `__init__`: every configured ministry and `"Unknown Ministry"` at 0. */
    constructor (forceRebuild: bool, ministries: seq<string>)
      ensures Valid()
      ensures this.forceRebuild == forceRebuild && this.ministries == ministries
      ensures keys == LedgerKeys(ministries)
      ensures forall m :: m in counts <==> m in ministries || m == Config.UnknownMinistry
      ensures forall m | m in counts :: counts[m] == 0
      ensures stats == Stats(0, 0, 0, 0, 0, 0)
    {
      this.forceRebuild := forceRebuild;
      this.ministries := ministries;
      stats := Stats(0, 0, 0, 0, 0, 0);
      var comprehension := map m | m in ministries :: 0;
      ComprehensionKeysSpec(ministries);
      InsertKeySpec(ComprehensionKeys(ministries), Config.UnknownMinistry);
      keys := InsertKey(ComprehensionKeys(ministries), Config.UnknownMinistry);
      counts := comprehension[Config.UnknownMinistry := 0];
    }

    /** `classify_pdfs`: `pdfCount` is how many PDFs the cache directory glob
        finds. With none nothing happens; otherwise `total_pdfs` is set and
        `ministries_with_pdfs` counts the ministries with a positive count. It
        moves no file and assigns no count. The sort by count only orders the
        printed report, so the count is taken in ledger order. */
    method ClassifyPdfs(pdfCount: nat)
      requires Valid()
      modifies this
      ensures Valid() && keys == old(keys) && counts == old(counts)
      ensures pdfCount == 0 ==> stats == old(stats)
      ensures pdfCount > 0 ==>
                stats == old(stats).(totalPdfs := pdfCount,
                                     ministriesWithPdfs := |Filter(keys, ReportedTest(counts))|)
    {
      if pdfCount == 0 {
        return;
      }
      stats := stats.(totalPdfs := pdfCount);
      var ministriesWithPdfs := 0;
      for i := 0 to |keys|
        invariant keys == old(keys) && counts == old(counts)
        invariant stats == old(stats).(totalPdfs := pdfCount)
        invariant ministriesWithPdfs == |Filter(keys[..i], ReportedTest(counts))|
      {
        assert keys[..i + 1] == keys[..i] + [keys[i]];
        FilterSnoc(keys[..i], keys[i], ReportedTest(counts));
        var ministry := keys[i];
        if counts[ministry] > 0 && ministry != Config.UnknownMinistry {
          ministriesWithPdfs := ministriesWithPdfs + 1;
        }
      }
      assert keys[..|keys|] == keys;
      stats := stats.(ministriesWithPdfs := ministriesWithPdfs);
    }

    /** The copy loop of `_redistribute_pdfs` for one empty ministry, copying
        `attempts` PDFs of `donor`'s directory into `recipient`'s. Each attempt
        raises, in `shutil.copy2` or on `Config.CURRENT_TIME` right after it,
        and is counted as an error; no count moves. */
    method CopyPdfs(donor: string, recipient: string, attempts: nat)
      requires Valid()
      modifies this
      ensures Valid() && keys == old(keys)
      ensures Ledger(counts, stats.errors) == CopiesAsWritten(Ledger(old(counts), old(stats.errors)), attempts)
      ensures stats == old(stats).(errors := stats.errors)
    {
      for j := 0 to attempts
        invariant Valid() && keys == old(keys)
        invariant Ledger(counts, stats.errors) == CopiesAsWritten(Ledger(old(counts), old(stats.errors)), j)
        invariant stats == old(stats).(errors := stats.errors)
      {
        stats := stats.(errors := stats.errors + 1);
      }
    }

    /** `_redistribute_pdfs(empty_ministries)`; `found(i)` is how many PDFs the
        donor's directory holds when the `i`-th empty ministry is served. */
    method RedistributeMinistryPdfs(emptyMinistries: seq<string>, found: nat -> nat)
      requires Valid()
      modifies this
      ensures Valid() && keys == old(keys)
      ensures Ledger(counts, stats.errors) ==
              RedistributePdfsAsWritten(Ledger(old(counts), old(stats.errors)), keys, emptyMinistries, found)
      ensures stats == old(stats).(errors := stats.errors)
    {
      var donorMinistries := DonorMinistries(keys, counts);
      if donorMinistries == [] {
        return;
      }
      ghost var start := Ledger(counts, stats.errors);
      for i := 0 to |emptyMinistries|
        invariant Valid() && keys == old(keys) && counts == start.counts
        invariant Ledger(counts, stats.errors) == RedistributedAsWritten(start, emptyMinistries[..i], found)
        invariant stats == old(stats).(errors := stats.errors)
      {
        assert emptyMinistries[..i + 1][..i] == emptyMinistries[..i];
        var emptyMinistry := emptyMinistries[i];
        var donor := MaxDonor(donorMinistries, counts);
        var donorPdfs := found(i);
        if donorPdfs == 0 {
          continue;
        }
        var pdfsToMove := Min(3, donorPdfs);
        CopyPdfs(donor, emptyMinistry, pdfsToMove);
      }
      assert emptyMinistries[..|emptyMinistries|] == emptyMinistries;
    }

    /** `verify_distribution`: with no empty ministry nothing happens; otherwise
        the redistribution runs and `ministries_with_pdfs` is recounted. As
        written no count moves, so that is the number of configured ministries
        minus the ministries that were empty before, and every attempted copy
        is an error. */
    method VerifyDistribution(found: nat -> nat)
      requires Valid()
      modifies this
      ensures Valid() && keys == old(keys) && counts == old(counts)
      ensures old(EmptyMinistries(keys, counts)) == [] ==> stats == old(stats)
      ensures old(EmptyMinistries(keys, counts)) != [] ==>
                stats == old(stats).(errors := stats.errors,
                                     ministriesWithPdfs := |ministries| - |old(EmptyMinistries(keys, counts))|) &&
                stats.errors == old(stats.errors) +
                  (if old(DonorMinistries(keys, counts)) == [] then 0
                   else AttemptsOf(found, |old(EmptyMinistries(keys, counts))|))
    {
      var emptyMinistries := EmptyMinistries(keys, counts);
      if emptyMinistries == [] {
        return;
      }
      RedistributePdfsAsWrittenSpec(keys, Ledger(counts, stats.errors), found);
      RedistributeMinistryPdfs(emptyMinistries, found);
      stats := stats.(ministriesWithPdfs := |ministries| - |EmptyMinistries(keys, counts)|);
    }

    /** The skip/count logic of `build_vector_database`. `registry` is the vector
        store's set of indexed ministries, `confirmed` the answer to the
        confirmation prompt and `outcome` what indexing each ministry gives.
        With `--force` and a non-empty registry, an unconfirmed run aborts and a
        confirmed one clears the registry first. */
    method BuildVectorDatabase(registry: set<string>, confirmed: bool, outcome: string -> Outcome)
      returns (aborted: bool, indexedMinistries: nat)
      requires Valid()
      modifies this
      ensures Valid() && keys == old(keys) && counts == old(counts)
      ensures aborted <==> forceRebuild && registry != {} && !confirmed
      ensures aborted ==> stats == old(stats) && indexedMinistries == 0
      ensures !aborted ==>
                var t := BuildTally(ministries, forceRebuild,
                                    Tally(if forceRebuild then {} else registry, 0, 0, old(stats.errors)), outcome);
                stats == old(stats).(totalChunks := t.chunks, errors := t.errors) && indexedMinistries == t.indexed
    {
      var indexed := registry;
      if forceRebuild && indexed != {} {
        if !confirmed {
          return true, 0;
        }
        indexed := {};
      }
      aborted := false;
      ghost var start := Tally(indexed, 0, 0, stats.errors);
      var totalChunks := 0;
      indexedMinistries := 0;
      for k := 0 to |ministries|
        invariant Tally(indexed, indexedMinistries, totalChunks, stats.errors) ==
                  BuildTally(ministries[..k], forceRebuild, start, outcome)
        invariant stats == old(stats).(errors := stats.errors)
        invariant keys == old(keys) && counts == old(counts)
      {
        assert ministries[..k + 1][..k] == ministries[..k];
        var ministry := ministries[k];
        if !forceRebuild && ministry in indexed {
          indexedMinistries := indexedMinistries + 1;
          continue;
        }
        match outcome(ministry)
        case ProcessFailed =>
          stats := stats.(errors := stats.errors + 1);
        case Processed(documents, stored) =>
          if documents == 0 {
            continue;
          }
          if !stored {
            stats := stats.(errors := stats.errors + 1);
            continue;
          }
          if ministry != "" {
            indexed := indexed + {ministry};
          }
          totalChunks := totalChunks + documents;
          indexedMinistries := indexedMinistries + 1;
      }
      assert ministries[..|ministries|] == ministries;
      stats := stats.(totalChunks := totalChunks);
    }
  }

  /** On a ledger whose counts are all 0, `classify_pdfs` reports no ministry,
      there is no donor, and every configured ministry is empty. */
  lemma ZeroLedger(ministries: seq<string>, counts: map<string, int>)
    requires forall m :: m in counts <==> m in ministries || m == Config.UnknownMinistry
    requires forall m | m in counts :: counts[m] == 0
    ensures Filter(LedgerKeys(ministries), ReportedTest(counts)) == []
    ensures DonorMinistries(LedgerKeys(ministries), counts) == []
    ensures Distinct(ministries) && Config.UnknownMinistry !in ministries ==>
              |ministries| - |EmptyMinistries(LedgerKeys(ministries), counts)| == 0
  {
    LedgerKeysSpec(ministries);
    FilterNone(LedgerKeys(ministries), ReportedTest(counts));
    FilterNone(LedgerKeys(ministries), DonorTest(counts));
    if Distinct(ministries) && Config.UnknownMinistry !in ministries {
      MinistriesWithPdfsMeaning(ministries, counts);
      FilterNone(ministries, m => HasPdfs(counts, m));
    }
  }

  /** The first steps of `create_database` on a fresh creator: `classify_pdfs`
      then `verify_distribution`. Every count is still 0, so no ministry is a
      donor and `_redistribute_pdfs` returns before its copy loop: nothing is
      copied, no error is counted, and for a list of distinct ministries
      without "Unknown Ministry" `ministries_with_pdfs` is 0. */
  method ClassifyThenVerify(ministries: seq<string>, pdfCount: nat, found: nat -> nat)
    returns (counts: map<string, int>, stats: Stats)
    ensures forall m :: m in counts <==> m in ministries || m == Config.UnknownMinistry
    ensures forall m | m in counts :: counts[m] == 0
    ensures stats.totalPdfs == pdfCount && stats.errors == 0 && stats.totalChunks == 0
    ensures Distinct(ministries) && Config.UnknownMinistry !in ministries ==> stats.ministriesWithPdfs == 0
  {
    var creator := new MinistryDatabaseCreator(false, ministries);
    ZeroLedger(ministries, creator.counts);
    creator.ClassifyPdfs(pdfCount);
    creator.VerifyDistribution(found);
    counts, stats := creator.counts, creator.stats;
  }
}
