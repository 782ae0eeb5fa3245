/** Building a certification request: the checks in the order they are made, and what
    a request that was built is known to satisfy. */
module Certify {
  import opened Prelude

  datatype SdType =
    | EntropyAssessmentReport | PublicUseDocument | DataCollectionAttestation | RbgReport | OtherDocument

  datatype Assessment = Assessment(eaId: i64, oeId: i64, accessToken: string)

  datatype SupportingDoc = SupportingDoc(sdId: i64, sdType: SdType, accessToken: string)

  /** What is known about restart testing of one assessment. */
  datatype Fact = Fact(eaId: i64, iidClaim: bool, restartUploaded: bool)

  datatype CertifyError =
    | MissingEntropyId
    | MissingModuleId
    | MissingEntropyCertificate
    | NoAssessments
    | InvalidEaId(eaId: i64)
    | MissingOeId(eaId: i64)
    | EmptyAssessmentAccessToken(eaId: i64)
    | DuplicateEaId(eaId: i64)
    | WrongEarCount(count: nat)
    | WrongPudCount(count: nat)
    | TooManyAttestations(count: nat)
    | EmptySupportingDocAccessToken(sdId: i64)
    | DuplicateRestartPrecondition(eaId: i64)
    | MissingRestartPrecondition(eaId: i64)
    | MissingRestartUpload(eaId: i64)

  // ----- the checks

  predicate SeenBefore(eas: seq<i64>, i: nat)
    requires i < |eas|
  {
    eas[i] in eas[..i]
  }

  function EaIds(xs: seq<Assessment>): (r: seq<i64>)
    ensures |r| == |xs| && forall k :: 0 <= k < |xs| ==> r[k] == xs[k].eaId
  {
    seq(|xs|, k requires 0 <= k < |xs| => xs[k].eaId)
  }

  function FactIds(fs: seq<Fact>): (r: seq<i64>)
    ensures |r| == |fs| && forall k :: 0 <= k < |fs| ==> r[k] == fs[k].eaId
  {
    seq(|fs|, k requires 0 <= k < |fs| => fs[k].eaId)
  }

  /** What is wrong with the i-th assessment, given those before it. */
  function AssessmentFault(xs: seq<Assessment>, i: nat): Option<CertifyError>
    requires i < |xs|
  {
    var a := xs[i];
    if a.eaId <= 0 then Some(InvalidEaId(a.eaId))
    else if a.oeId <= 0 then Some(MissingOeId(a.eaId))
    else if a.accessToken == "" then Some(EmptyAssessmentAccessToken(a.eaId))
    else if SeenBefore(EaIds(xs), i) then Some(DuplicateEaId(a.eaId))
    else None
  }

  function FirstFault(xs: seq<Assessment>, i: nat): Option<CertifyError>
    requires i <= |xs|
    decreases |xs| - i
  {
    if i == |xs| then None
    else if AssessmentFault(xs, i).Some? then AssessmentFault(xs, i)
    else FirstFault(xs, i + 1)
  }

  function CheckAssessments(xs: seq<Assessment>): Option<CertifyError> {
    if xs == [] then Some(NoAssessments) else FirstFault(xs, 0)
  }

  function CountOf(docs: seq<SupportingDoc>, t: SdType): nat {
    if docs == [] then 0 else (if docs[0].sdType == t then 1 else 0) + CountOf(docs[1..], t)
  }

  function FirstEmptyToken(docs: seq<SupportingDoc>): Option<CertifyError> {
    if docs == [] then None
    else if docs[0].accessToken == "" then Some(EmptySupportingDocAccessToken(docs[0].sdId))
    else FirstEmptyToken(docs[1..])
  }

  function CheckDocs(docs: seq<SupportingDoc>): Option<CertifyError> {
    var ear, pud, dca := CountOf(docs, EntropyAssessmentReport), CountOf(docs, PublicUseDocument), CountOf(docs, DataCollectionAttestation);
    if ear != 1 then Some(WrongEarCount(ear))
    else if pud != 1 then Some(WrongPudCount(pud))
    else if dca > 1 then Some(TooManyAttestations(dca))
    else FirstEmptyToken(docs)
  }

  function FirstDuplicate(fs: seq<Fact>, i: nat): Option<CertifyError>
    requires i <= |fs|
    decreases |fs| - i
  {
    if i == |fs| then None
    else if SeenBefore(FactIds(fs), i) then Some(DuplicateRestartPrecondition(fs[i].eaId))
    else FirstDuplicate(fs, i + 1)
  }

  /** The first fact about an assessment. */
  function FactFor(fs: seq<Fact>, eaId: i64): (r: Option<Fact>)
    ensures r.Some? ==> r.value in fs && r.value.eaId == eaId
    ensures r.None? ==> forall f :: f in fs ==> f.eaId != eaId
  {
    if fs == [] then None
    else if fs[0].eaId == eaId then Some(fs[0])
    else
      assert forall f :: f in fs ==> f == fs[0] || f in fs[1..];
      FactFor(fs[1..], eaId)
  }

  function RestartFault(a: Assessment, fs: seq<Fact>): Option<CertifyError> {
    match FactFor(fs, a.eaId)
    case None => Some(MissingRestartPrecondition(a.eaId))
    case Some(f) => if !f.iidClaim && !f.restartUploaded then Some(MissingRestartUpload(a.eaId)) else None
  }

  function FirstRestartFault(xs: seq<Assessment>, fs: seq<Fact>): Option<CertifyError> {
    if xs == [] then None
    else if RestartFault(xs[0], fs).Some? then RestartFault(xs[0], fs)
    else FirstRestartFault(xs[1..], fs)
  }

  function CheckRestarts(xs: seq<Assessment>, fs: seq<Fact>): Option<CertifyError> {
    if FirstDuplicate(fs, 0).Some? then FirstDuplicate(fs, 0) else FirstRestartFault(xs, fs)
  }

  /** The three checks both requests share, in order. */
  function CheckContent(xs: seq<Assessment>, docs: seq<SupportingDoc>, fs: seq<Fact>): Option<CertifyError> {
    if CheckAssessments(xs).Some? then CheckAssessments(xs)
    else if CheckDocs(docs).Some? then CheckDocs(docs)
    else CheckRestarts(xs, fs)
  }

  datatype CertifyRequest = CertifyRequest(entropyId: string, moduleId: i64, vendorId: Option<i64>,
                                           limitToSingleModule: bool, assessments: seq<Assessment>, docs: seq<SupportingDoc>)

  datatype AddOeRequest = AddOeRequest(entropyId: string, entropyCertificate: string,
                                       limitToSingleModule: bool, assessments: seq<Assessment>, docs: seq<SupportingDoc>)

  /** `CertifyRequest::new`. */
  function NewCertify(entropyId: string, moduleId: i64, xs: seq<Assessment>, docs: seq<SupportingDoc>, fs: seq<Fact>):
    Result<CertifyRequest, CertifyError>
  {
    if entropyId == "" then Err(MissingEntropyId)
    else if moduleId <= 0 then Err(MissingModuleId)
    else
      match CheckContent(xs, docs, fs)
      case Some(e) => Err(e)
      case None => Ok(CertifyRequest(entropyId, moduleId, None, true, xs, docs))
  }

  /** `AddOeRequest::new`. */
  function NewAddOe(entropyId: string, certificate: string, xs: seq<Assessment>, docs: seq<SupportingDoc>, fs: seq<Fact>):
    Result<AddOeRequest, CertifyError>
  {
    if entropyId == "" then Err(MissingEntropyId)
    else if certificate == "" then Err(MissingEntropyCertificate)
    else
      match CheckContent(xs, docs, fs)
      case Some(e) => Err(e)
      case None => Ok(AddOeRequest(entropyId, certificate, true, xs, docs))
  }

  // ----- what acceptance means

  predicate Distinct(ids: seq<i64>) {
    forall i, j :: 0 <= i < j < |ids| ==> ids[i] != ids[j]
  }

  predicate DistinctAssessments(xs: seq<Assessment>) {
    forall i, j :: 0 <= i < j < |xs| ==> xs[i].eaId != xs[j].eaId
  }

  predicate DistinctFacts(fs: seq<Fact>) {
    forall i, j :: 0 <= i < j < |fs| ==> fs[i].eaId != fs[j].eaId
  }

  lemma DistinctIds(xs: seq<Assessment>, fs: seq<Fact>)
    ensures Distinct(EaIds(xs)) <==> DistinctAssessments(xs)
    ensures Distinct(FactIds(fs)) <==> DistinctFacts(fs)
  {
    if Distinct(EaIds(xs)) { assert forall k :: 0 <= k < |xs| ==> EaIds(xs)[k] == xs[k].eaId; }
    if Distinct(FactIds(fs)) { assert forall k :: 0 <= k < |fs| ==> FactIds(fs)[k] == fs[k].eaId; }
  }

  predicate GoodAssessment(a: Assessment) {
    a.eaId > 0 && a.oeId > 0 && a.accessToken != ""
  }

  predicate GoodAssessments(xs: seq<Assessment>) {
    xs != [] && (forall a :: a in xs ==> GoodAssessment(a)) && DistinctAssessments(xs)
  }

  function Types(docs: seq<SupportingDoc>): (r: seq<SdType>)
    ensures |r| == |docs| && forall k :: 0 <= k < |docs| ==> r[k] == docs[k].sdType
  {
    seq(|docs|, k requires 0 <= k < |docs| => docs[k].sdType)
  }

  /** How many documents have the type. */
  function Multiplicity(docs: seq<SupportingDoc>, t: SdType): nat {
    multiset(Types(docs))[t]
  }

  lemma {:induction false} CountIs(docs: seq<SupportingDoc>, t: SdType)
    ensures CountOf(docs, t) == Multiplicity(docs, t)
  {
    if docs == [] {
      assert Types(docs) == [];
    } else {
      CountIs(docs[1..], t);
      assert Types(docs) == [docs[0].sdType] + Types(docs[1..]);
    }
  }

  lemma DocsCounted(docs: seq<SupportingDoc>)
    ensures CountOf(docs, EntropyAssessmentReport) == Multiplicity(docs, EntropyAssessmentReport)
    ensures CountOf(docs, PublicUseDocument) == Multiplicity(docs, PublicUseDocument)
    ensures CountOf(docs, DataCollectionAttestation) == Multiplicity(docs, DataCollectionAttestation)
  {
    CountIs(docs, EntropyAssessmentReport);
    CountIs(docs, PublicUseDocument);
    CountIs(docs, DataCollectionAttestation);
  }

  predicate GoodDocs(docs: seq<SupportingDoc>) {
    && Multiplicity(docs, EntropyAssessmentReport) == 1 && Multiplicity(docs, PublicUseDocument) == 1
    && Multiplicity(docs, DataCollectionAttestation) <= 1
    && forall d :: d in docs ==> d.accessToken != ""
  }

  /** A fact about the assessment that lets it through. */
  predicate Clears(f: Fact, a: Assessment) {
    f.eaId == a.eaId && (f.iidClaim || f.restartUploaded)
  }

  predicate Cleared(a: Assessment, fs: seq<Fact>) {
    exists f :: f in fs && Clears(f, a)
  }

  predicate GoodFacts(xs: seq<Assessment>, fs: seq<Fact>) {
    DistinctFacts(fs) && forall a :: a in xs ==> Cleared(a, fs)
  }

  predicate Acceptable(xs: seq<Assessment>, docs: seq<SupportingDoc>, fs: seq<Fact>) {
    GoodAssessments(xs) && GoodDocs(docs) && GoodFacts(xs, fs)
  }

  lemma DistinctIff(ids: seq<i64>)
    ensures Distinct(ids) <==> forall i :: 0 <= i < |ids| ==> !SeenBefore(ids, i)
  {
    if Distinct(ids) {
      forall i | 0 <= i < |ids| ensures !SeenBefore(ids, i) {
        assert forall j :: 0 <= j < i ==> ids[..i][j] == ids[j];
      }
    } else {
      var i, j :| 0 <= i < j < |ids| && ids[i] == ids[j];
      assert ids[..j][i] == ids[i];
      assert SeenBefore(ids, j);
    }
  }

  /** The fault found is the one of the first faulty assessment. */
  lemma {:induction false} FirstFaultIs(xs: seq<Assessment>, i: nat)
    requires i <= |xs|
    ensures FirstFault(xs, i).None? <==> forall k :: i <= k < |xs| ==> AssessmentFault(xs, k).None?
    ensures FirstFault(xs, i).Some? ==>
      exists k :: i <= k < |xs| && AssessmentFault(xs, k) == FirstFault(xs, i) && forall j :: i <= j < k ==> AssessmentFault(xs, j).None?
    decreases |xs| - i
  {
    hide AssessmentFault;
    if i < |xs| && AssessmentFault(xs, i).None? {
      FirstFaultIs(xs, i + 1);
    }
  }

  lemma AssessmentsIff(xs: seq<Assessment>)
    ensures CheckAssessments(xs).None? <==> GoodAssessments(xs)
  {
    hide SeenBefore, Distinct, DistinctAssessments;
    FirstFaultIs(xs, 0);
    DistinctIff(EaIds(xs));
    DistinctIds(xs, []);
    assert forall k :: 0 <= k < |xs| ==> xs[k] in xs;
    if CheckAssessments(xs).None? {
      forall a | a in xs ensures GoodAssessment(a) {
        var k :| 0 <= k < |xs| && xs[k] == a;
        assert AssessmentFault(xs, k).None?;
      }
      assert forall k :: 0 <= k < |xs| ==> AssessmentFault(xs, k).None? ==> !SeenBefore(EaIds(xs), k);
    }
  }

  lemma {:induction false} TokensIff(docs: seq<SupportingDoc>)
    ensures FirstEmptyToken(docs).None? <==> forall d :: d in docs ==> d.accessToken != ""
  {
    if docs != [] {
      TokensIff(docs[1..]);
      assert forall d :: d in docs <==> d == docs[0] || d in docs[1..];
    }
  }

  lemma {:induction false} DuplicatesIff(fs: seq<Fact>, i: nat)
    requires i <= |fs|
    ensures FirstDuplicate(fs, i).None? <==> forall k :: i <= k < |fs| ==> !SeenBefore(FactIds(fs), k)
    decreases |fs| - i
  {
    hide SeenBefore;
    if i < |fs| {
      DuplicatesIff(fs, i + 1);
    }
  }

  /** Among distinct facts the one found is the only one about the assessment. */
  lemma RestartFaultIff(a: Assessment, fs: seq<Fact>)
    requires Distinct(FactIds(fs))
    ensures RestartFault(a, fs).None? <==> Cleared(a, fs)
  {
    var r := FactFor(fs, a.eaId);
    if r.Some? {
      var i :| 0 <= i < |fs| && fs[i] == r.value;
      forall f | f in fs && f.eaId == a.eaId ensures f == r.value {
        var j :| 0 <= j < |fs| && fs[j] == f;
        assert FactIds(fs)[i] == FactIds(fs)[j];
      }
      if Clears(r.value, a) {
        assert r.value in fs;
      }
    }
  }

  lemma {:induction false} RestartsIff(xs: seq<Assessment>, fs: seq<Fact>)
    requires Distinct(FactIds(fs))
    ensures FirstRestartFault(xs, fs).None? <==> forall a :: a in xs ==> Cleared(a, fs)
  {
    hide RestartFault, Cleared;
    if xs != [] {
      RestartFaultIff(xs[0], fs);
      RestartsIff(xs[1..], fs);
      assert forall a :: a in xs <==> a == xs[0] || a in xs[1..];
    }
  }

  lemma ContentIff(xs: seq<Assessment>, docs: seq<SupportingDoc>, fs: seq<Fact>)
    ensures CheckContent(xs, docs, fs).None? <==> Acceptable(xs, docs, fs)
  {
    hide CheckAssessments, GoodAssessments, CountOf, Multiplicity, FirstEmptyToken, FirstDuplicate, FirstRestartFault, SeenBefore;
    hide Distinct, DistinctFacts, Cleared;
    AssessmentsIff(xs);
    DocsCounted(docs);
    DistinctIds(xs, fs);
    TokensIff(docs);
    DuplicatesIff(fs, 0);
    DistinctIff(FactIds(fs));
    if Distinct(FactIds(fs)) {
      RestartsIff(xs, fs);
    }
  }

  /** A full request is built exactly when every id is there and the content is
      acceptable; what is built carries the arguments unchanged. */
  lemma CertifyIff(entropyId: string, moduleId: i64, xs: seq<Assessment>, docs: seq<SupportingDoc>, fs: seq<Fact>)
    ensures var r := NewCertify(entropyId, moduleId, xs, docs, fs);
      && (r.Ok? <==> entropyId != "" && moduleId > 0 && Acceptable(xs, docs, fs))
      && (r.Ok? ==> r.value.entropyId == entropyId && r.value.moduleId == moduleId && r.value.assessments == xs && r.value.docs == docs)
      && (r.Ok? ==> r.value.vendorId == None && r.value.limitToSingleModule)
  {
    hide CheckContent, Acceptable;
    ContentIff(xs, docs, fs);
  }

  /** The same for adding operating environments, with a certificate for the module. */
  lemma AddOeIff(entropyId: string, certificate: string, xs: seq<Assessment>, docs: seq<SupportingDoc>, fs: seq<Fact>)
    ensures var r := NewAddOe(entropyId, certificate, xs, docs, fs);
      && (r.Ok? <==> entropyId != "" && certificate != "" && Acceptable(xs, docs, fs))
      && (r.Ok? ==> r.value.entropyId == entropyId && r.value.entropyCertificate == certificate
                    && r.value.assessments == xs && r.value.docs == docs && r.value.limitToSingleModule)
  {
    hide CheckContent, Acceptable;
    ContentIff(xs, docs, fs);
  }

  // ----- which error it is

  /** The assessment is good and its id new. */
  predicate Fine(xs: seq<Assessment>, k: nat)
    requires k < |xs|
  {
    GoodAssessment(xs[k]) && forall j :: 0 <= j < k ==> xs[j].eaId != xs[k].eaId
  }

  /** The error names the k-th assessment and the first thing wrong with it. */
  predicate BlamesAssessment(e: CertifyError, xs: seq<Assessment>, k: nat)
    requires k < |xs|
  {
    var a := xs[k];
    match e
    case InvalidEaId(id) => id == a.eaId && id <= 0
    case MissingOeId(id) => id == a.eaId && id > 0 && a.oeId <= 0
    case EmptyAssessmentAccessToken(id) => id == a.eaId && id > 0 && a.oeId > 0 && a.accessToken == ""
    case DuplicateEaId(id) => id == a.eaId && GoodAssessment(a) && exists j :: 0 <= j < k && xs[j].eaId == id
    case _ => false
  }

  /** The error blames the first assessment that is not fine, or there is none at all. */
  predicate AssessmentsViolated(e: CertifyError, xs: seq<Assessment>) {
    if xs == [] then e == NoAssessments
    else exists k :: 0 <= k < |xs| && BlamesAssessment(e, xs, k) && forall j :: 0 <= j < k ==> Fine(xs, j)
  }

  /** The document counts in order, then the first document without a token. */
  predicate DocsViolated(e: CertifyError, docs: seq<SupportingDoc>) {
    var ear, pud, dca := Multiplicity(docs, EntropyAssessmentReport), Multiplicity(docs, PublicUseDocument), Multiplicity(docs, DataCollectionAttestation);
    match e
    case WrongEarCount(n) => n == ear && n != 1
    case WrongPudCount(n) => ear == 1 && n == pud && n != 1
    case TooManyAttestations(n) => ear == 1 && pud == 1 && n == dca && n > 1
    case EmptySupportingDocAccessToken(id) =>
      ear == 1 && pud == 1 && dca <= 1 && exists k :: 0 <= k < |docs| && BlamesDoc(id, docs, k)
    case _ => false
  }

  predicate BlamesDoc(id: i64, docs: seq<SupportingDoc>, k: nat)
    requires k < |docs|
  {
    docs[k].sdId == id && docs[k].accessToken == "" && forall j :: 0 <= j < k ==> docs[j].accessToken != ""
  }

  /** The first fact whose assessment already has one; among distinct facts, the first
      assessment that none of them clears. */
  predicate FactsViolated(e: CertifyError, xs: seq<Assessment>, fs: seq<Fact>) {
    match e
    case DuplicateRestartPrecondition(id) => exists k :: 0 <= k < |fs| && BlamesFact(id, fs, k)
    case MissingRestartPrecondition(id) =>
      DistinctFacts(fs) && (exists k :: 0 <= k < |xs| && BlamesUncleared(id, xs, fs, k)) && forall f :: f in fs ==> f.eaId != id
    case MissingRestartUpload(id) =>
      DistinctFacts(fs) && (exists k :: 0 <= k < |xs| && BlamesUncleared(id, xs, fs, k)) && exists f :: f in fs && f.eaId == id
    case _ => false
  }

  predicate IsRepeated(fs: seq<Fact>, k: nat)
    requires k < |fs|
  {
    exists j :: 0 <= j < k && fs[j].eaId == fs[k].eaId
  }

  lemma RepeatedIff(fs: seq<Fact>, k: nat)
    requires k < |fs|
    ensures SeenBefore(FactIds(fs), k) <==> IsRepeated(fs, k)
  {
    assert forall j :: 0 <= j < k ==> FactIds(fs)[..k][j] == fs[j].eaId;
    if IsRepeated(fs, k) {
      var j :| 0 <= j < k && fs[j].eaId == fs[k].eaId;
      assert FactIds(fs)[..k][j] == fs[k].eaId;
    }
  }

  predicate BlamesFact(id: i64, fs: seq<Fact>, k: nat)
    requires k < |fs|
  {
    fs[k].eaId == id && IsRepeated(fs, k) && forall j :: 0 <= j < k ==> !IsRepeated(fs, j)
  }

  predicate BlamesUncleared(id: i64, xs: seq<Assessment>, fs: seq<Fact>, k: nat)
    requires k < |xs|
  {
    xs[k].eaId == id && !Cleared(xs[k], fs) && forall j :: 0 <= j < k ==> Cleared(xs[j], fs)
  }

  /** The first of the shared checks that fails gives the error. */
  predicate ContentViolated(e: CertifyError, xs: seq<Assessment>, docs: seq<SupportingDoc>, fs: seq<Fact>) {
    if !GoodAssessments(xs) then AssessmentsViolated(e, xs)
    else if !GoodDocs(docs) then DocsViolated(e, docs)
    else FactsViolated(e, xs, fs)
  }

  lemma FaultIff(xs: seq<Assessment>, k: nat, e: CertifyError)
    requires k < |xs|
    ensures AssessmentFault(xs, k) == Some(e) <==> BlamesAssessment(e, xs, k)
    ensures AssessmentFault(xs, k) == None <==> Fine(xs, k)
  {
    assert forall j :: 0 <= j < k ==> EaIds(xs)[..k][j] == xs[j].eaId;
    assert SeenBefore(EaIds(xs), k) <==> exists j :: 0 <= j < k && xs[j].eaId == xs[k].eaId by {
      if j :| 0 <= j < k && xs[j].eaId == xs[k].eaId { assert EaIds(xs)[..k][j] == xs[k].eaId; }
    }
  }

  predicate IsFirstFault(xs: seq<Assessment>, i: nat, k: nat, e: CertifyError)
    requires i <= k < |xs|
  {
    AssessmentFault(xs, k) == Some(e) && forall j :: i <= j < k ==> AssessmentFault(xs, j).None?
  }

  lemma {:induction false} FirstFaultIff(xs: seq<Assessment>, i: nat, e: CertifyError)
    requires i <= |xs|
    ensures FirstFault(xs, i) == Some(e) <==> exists k :: i <= k < |xs| && IsFirstFault(xs, i, k, e)
    decreases |xs| - i
  {
    hide AssessmentFault;
    if i < |xs| {
      FirstFaultIff(xs, i + 1, e);
      if AssessmentFault(xs, i).Some? {
        if AssessmentFault(xs, i) == Some(e) { assert IsFirstFault(xs, i, i, e); }
      } else {
        if k :| i <= k < |xs| && IsFirstFault(xs, i, k, e) { assert IsFirstFault(xs, i + 1, k, e); }
        var n := i + 1;
        if k :| n <= k < |xs| && IsFirstFault(xs, n, k, e) { assert IsFirstFault(xs, i, k, e); }
      }
    }
  }

  lemma AssessmentErrorIff(xs: seq<Assessment>, e: CertifyError)
    ensures CheckAssessments(xs) == Some(e) <==> AssessmentsViolated(e, xs)
  {
    hide AssessmentFault, BlamesAssessment, Fine, FirstFault;
    FirstFaultIff(xs, 0, e);
    forall k | 0 <= k < |xs|
      ensures AssessmentFault(xs, k) == Some(e) <==> BlamesAssessment(e, xs, k)
      ensures AssessmentFault(xs, k) == None <==> Fine(xs, k)
    {
      FaultIff(xs, k, e);
    }
    if k :| 0 <= k < |xs| && BlamesAssessment(e, xs, k) && forall j :: 0 <= j < k ==> Fine(xs, j) {
      assert IsFirstFault(xs, 0, k, e);
    }
  }

  lemma {:induction false} TokenErrorIff(docs: seq<SupportingDoc>, e: CertifyError)
    ensures FirstEmptyToken(docs) == Some(e) <==>
      e.EmptySupportingDocAccessToken? && exists k :: 0 <= k < |docs| && BlamesDoc(e.sdId, docs, k)
  {
    if docs != [] {
      TokenErrorIff(docs[1..], e);
      if docs[0].accessToken == "" {
        assert BlamesDoc(docs[0].sdId, docs, 0);
      } else if e.EmptySupportingDocAccessToken? {
        if k :| 0 <= k < |docs| && BlamesDoc(e.sdId, docs, k) {
          assert forall j :: 0 <= j < k - 1 ==> docs[1..][j] == docs[j + 1];
          assert BlamesDoc(e.sdId, docs[1..], k - 1);
        }
        if k :| 0 <= k < |docs[1..]| && BlamesDoc(e.sdId, docs[1..], k) {
          assert forall j :: 0 < j < k + 1 ==> docs[j] == docs[1..][j - 1];
          assert BlamesDoc(e.sdId, docs, k + 1);
        }
      }
    }
  }

  lemma {:induction false} DuplicateErrorIff(fs: seq<Fact>, i: nat, e: CertifyError)
    requires i <= |fs| && forall j :: 0 <= j < i ==> !SeenBefore(FactIds(fs), j)
    ensures FirstDuplicate(fs, i) == Some(e) <==>
      e.DuplicateRestartPrecondition? && exists k :: 0 <= k < |fs| && BlamesFact(e.eaId, fs, k)
    decreases |fs| - i
  {
    hide SeenBefore, IsRepeated;
    forall k | 0 <= k < |fs| ensures SeenBefore(FactIds(fs), k) <==> IsRepeated(fs, k) {
      RepeatedIff(fs, k);
    }
    if i < |fs| {
      if SeenBefore(FactIds(fs), i) {
        assert BlamesFact(fs[i].eaId, fs, i);
      } else {
        DuplicateErrorIff(fs, i + 1, e);
      }
    }
  }

  predicate BlamesRestart(e: CertifyError, xs: seq<Assessment>, fs: seq<Fact>, k: nat)
    requires k < |xs|
  {
    RestartFault(xs[k], fs) == Some(e) && forall j :: 0 <= j < k ==> RestartFault(xs[j], fs).None?
  }

  lemma {:induction false} RestartErrorIff(xs: seq<Assessment>, fs: seq<Fact>, e: CertifyError)
    ensures FirstRestartFault(xs, fs) == Some(e) <==> exists k :: 0 <= k < |xs| && BlamesRestart(e, xs, fs, k)
  {
    hide RestartFault;
    if xs != [] {
      RestartErrorIff(xs[1..], fs, e);
      if RestartFault(xs[0], fs).Some? {
        if RestartFault(xs[0], fs) == Some(e) { assert BlamesRestart(e, xs, fs, 0); }
      } else {
        if k :| 0 <= k < |xs| && BlamesRestart(e, xs, fs, k) {
          assert forall j :: 0 <= j < k - 1 ==> xs[1..][j] == xs[j + 1];
          assert BlamesRestart(e, xs[1..], fs, k - 1);
        }
        if k :| 0 <= k < |xs[1..]| && BlamesRestart(e, xs[1..], fs, k) {
          assert forall j :: 0 < j < k + 1 ==> xs[j] == xs[1..][j - 1];
          assert BlamesRestart(e, xs, fs, k + 1);
        }
      }
    }
  }

  /** Which fault an uncleared assessment has: no fact about it, or one that does not clear it. */
  lemma RestartFaultIs(a: Assessment, fs: seq<Fact>, e: CertifyError)
    requires Distinct(FactIds(fs))
    ensures RestartFault(a, fs) == Some(e) <==>
      !Cleared(a, fs) &&
      e == if exists f :: f in fs && f.eaId == a.eaId then MissingRestartUpload(a.eaId) else MissingRestartPrecondition(a.eaId)
  {
    hide Cleared;
    RestartFaultIff(a, fs);
  }

  lemma RestartsViolatedIff(xs: seq<Assessment>, fs: seq<Fact>, e: CertifyError)
    requires Distinct(FactIds(fs))
    ensures FirstRestartFault(xs, fs) == Some(e) <==> FactsViolated(e, xs, fs)
  {
    hide RestartFault, Cleared, FirstRestartFault, Distinct, DistinctFacts, IsRepeated;
    RestartErrorIff(xs, fs, e);
    DistinctIff(FactIds(fs));
    DistinctIds(xs, fs);
    forall k | 0 <= k < |fs| ensures SeenBefore(FactIds(fs), k) <==> IsRepeated(fs, k) {
      RepeatedIff(fs, k);
    }
    forall k | 0 <= k < |xs|
      ensures RestartFault(xs[k], fs) == Some(e) <==>
        !Cleared(xs[k], fs) &&
        e == if exists f :: f in fs && f.eaId == xs[k].eaId then MissingRestartUpload(xs[k].eaId) else MissingRestartPrecondition(xs[k].eaId)
      ensures RestartFault(xs[k], fs).None? <==> Cleared(xs[k], fs)
    {
      RestartFaultIs(xs[k], fs, e);
      RestartFaultIff(xs[k], fs);
    }
    if k :| 0 <= k < |xs| && BlamesRestart(e, xs, fs, k) { assert BlamesUncleared(xs[k].eaId, xs, fs, k); }
    if FactsViolated(e, xs, fs) {
      var k :| 0 <= k < |xs| && BlamesUncleared(e.eaId, xs, fs, k);
      assert BlamesRestart(e, xs, fs, k);
    }
  }

  lemma FactErrorIff(xs: seq<Assessment>, fs: seq<Fact>, e: CertifyError)
    ensures CheckRestarts(xs, fs) == Some(e) <==> FactsViolated(e, xs, fs)
  {
    hide FirstDuplicate, FirstRestartFault, Cleared, SeenBefore, Distinct, DistinctFacts;
    DuplicateErrorIff(fs, 0, e);
    DistinctIds(xs, fs);
    DuplicatesIff(fs, 0);
    DistinctIff(FactIds(fs));
    if Distinct(FactIds(fs)) { RestartsViolatedIff(xs, fs, e); }
  }

  lemma DocErrorIff(docs: seq<SupportingDoc>, e: CertifyError)
    ensures CheckDocs(docs) == Some(e) <==> DocsViolated(e, docs)
  {
    hide CountOf, Multiplicity, FirstEmptyToken;
    TokenErrorIff(docs, e);
    DocsCounted(docs);
  }

  /** The shared checks give exactly the error of the first violation. */
  lemma ContentErrorIff(xs: seq<Assessment>, docs: seq<SupportingDoc>, fs: seq<Fact>, e: CertifyError)
    ensures CheckContent(xs, docs, fs) == Some(e) <==> ContentViolated(e, xs, docs, fs)
  {
    hide CheckAssessments, GoodAssessments, CheckRestarts, CountOf, Multiplicity, FirstEmptyToken, AssessmentsViolated, DocsViolated, FactsViolated;
    AssessmentsIff(xs);
    DocsCounted(docs);
    TokensIff(docs);
    AssessmentErrorIff(xs, e);
    DocErrorIff(docs, e);
    FactErrorIff(xs, fs, e);
  }

  /** Both constructors fail with exactly the error of the first violation: the ids, then
      the assessments, the documents and the restart facts. */
  lemma FirstViolation(entropyId: string, moduleId: i64, certificate: string, xs: seq<Assessment>, docs: seq<SupportingDoc>, fs: seq<Fact>, e: CertifyError)
    ensures NewCertify(entropyId, moduleId, xs, docs, fs) == Err(e) <==>
      if entropyId == "" then e == MissingEntropyId
      else if moduleId <= 0 then e == MissingModuleId
      else ContentViolated(e, xs, docs, fs)
    ensures NewAddOe(entropyId, certificate, xs, docs, fs) == Err(e) <==>
      if entropyId == "" then e == MissingEntropyId
      else if certificate == "" then e == MissingEntropyCertificate
      else ContentViolated(e, xs, docs, fs)
  {
    hide CheckContent, ContentViolated;
    ContentErrorIff(xs, docs, fs, e);
  }

  /** No request is ever built around a non-IID assessment without a restart upload:
      every assessment in it has exactly one fact, and that fact clears it. */
  lemma BuiltMeansCleared(entropyId: string, moduleId: i64, xs: seq<Assessment>, docs: seq<SupportingDoc>, fs: seq<Fact>, f: Fact)
    requires NewCertify(entropyId, moduleId, xs, docs, fs).Ok?
    requires f in fs && !f.iidClaim && !f.restartUploaded
    ensures forall a :: a in xs ==> a.eaId != f.eaId
  {
    hide NewCertify, GoodAssessments, GoodDocs;
    CertifyIff(entropyId, moduleId, xs, docs, fs);
    var i :| 0 <= i < |fs| && fs[i] == f;
    forall a | a in xs ensures a.eaId != f.eaId {
      assert Cleared(a, fs);
      var g :| g in fs && Clears(g, a);
      var j :| 0 <= j < |fs| && fs[j] == g;
      assert FactIds(fs)[i] == f.eaId && FactIds(fs)[j] == a.eaId;
    }
  }

  // ----- order does not matter

  function Without<T>(xs: seq<T>, i: nat): (r: seq<T>)
    requires i < |xs|
    ensures |r| == |xs| - 1
  {
    xs[..i] + xs[i + 1..]
  }

  lemma BagWithout<T>(xs: seq<T>, i: nat)
    requires i < |xs|
    ensures multiset(Without(xs, i)) == multiset(xs) - multiset{xs[i]}
  {
    assert xs == xs[..i] + [xs[i]] + xs[i + 1..];
  }

  lemma SameMembers<T>(xs: seq<T>, ys: seq<T>)
    requires multiset(xs) == multiset(ys)
    ensures |xs| == |ys| && forall x :: x in xs <==> x in ys
  {
    assert |multiset(xs)| == |xs| && |multiset(ys)| == |ys|;
    forall x ensures x in xs <==> x in ys {
      assert x in xs <==> x in multiset(xs);
      assert x in ys <==> x in multiset(ys);
    }
  }

  /** The first of a rearranged sequence, and what both have left without it. */
  lemma Rearranged<T>(xs: seq<T>, ys: seq<T>) returns (j: nat)
    requires multiset(xs) == multiset(ys) && xs != []
    ensures j < |ys| && ys[j] == xs[0]
    ensures multiset(Without(xs, 0)) == multiset(Without(ys, j))
  {
    SameMembers(xs, ys);
    assert xs[0] in ys;
    j :| 0 <= j < |ys| && ys[j] == xs[0];
    BagWithout(xs, 0);
    BagWithout(ys, j);
  }

  lemma {:induction false} CountWithout(docs: seq<SupportingDoc>, i: nat, t: SdType)
    requires i < |docs|
    ensures CountOf(docs, t) == CountOf(Without(docs, i), t) + (if docs[i].sdType == t then 1 else 0)
  {
    if i == 0 {
      assert Without(docs, 0) == docs[1..];
    } else {
      CountWithout(docs[1..], i - 1, t);
      assert Without(docs, i)[1..] == Without(docs[1..], i - 1);
    }
  }

  lemma {:induction false} CountPermuted(a: seq<SupportingDoc>, b: seq<SupportingDoc>, t: SdType)
    requires multiset(a) == multiset(b)
    ensures CountOf(a, t) == CountOf(b, t)
    decreases |a|
  {
    hide CountOf, Without;
    SameMembers(a, b);
    if a == [] {
      assert b == [];
    } else {
      var j := Rearranged(a, b);
      CountWithout(a, 0, t);
      CountWithout(b, j, t);
      CountPermuted(Without(a, 0), Without(b, j), t);
    }
  }

  predicate DistinctBy<T(!new)>(xs: seq<T>, id: T -> i64) {
    forall i, j :: 0 <= i < j < |xs| ==> id(xs[i]) != id(xs[j])
  }

  lemma MembersWithout<T>(xs: seq<T>, i: nat, k: nat) returns (l: nat)
    requires i < |xs| && k < |xs| && k != i
    ensures l < |xs| - 1 && Without(xs, i)[l] == xs[k] && l == if k < i then k else k - 1
  {
    l := if k < i then k else k - 1;
  }

  /** One element aside, the others are distinct among themselves and from it. */
  lemma DistinctWithout<T(!new)>(xs: seq<T>, i: nat, id: T -> i64)
    requires i < |xs|
    ensures DistinctBy(xs, id) <==>
      DistinctBy(Without(xs, i), id) && forall x :: x in Without(xs, i) ==> id(x) != id(xs[i])
  {
    var rest := Without(xs, i);
    assert forall l :: 0 <= l < |rest| ==> rest[l] == xs[if l < i then l else l + 1];
    if DistinctBy(rest, id) && forall x :: x in rest ==> id(x) != id(xs[i]) {
      forall a, b | 0 <= a < b < |xs| ensures id(xs[a]) != id(xs[b]) {
        if a != i {
          var l := MembersWithout(xs, i, a);
          assert rest[l] in rest;
        }
        if b != i {
          var l := MembersWithout(xs, i, b);
          assert rest[l] in rest;
        }
      }
    }
  }

  lemma {:induction false} DistinctPermuted<T(!new)>(xs: seq<T>, ys: seq<T>, id: T -> i64)
    requires multiset(xs) == multiset(ys)
    ensures DistinctBy(xs, id) <==> DistinctBy(ys, id)
    decreases |xs|
  {
    hide DistinctBy, Without;
    SameMembers(xs, ys);
    if xs == [] {
      assert ys == [];
    } else {
      var j := Rearranged(xs, ys);
      DistinctWithout(xs, 0, id);
      DistinctWithout(ys, j, id);
      DistinctPermuted(Without(xs, 0), Without(ys, j), id);
      SameMembers(Without(xs, 0), Without(ys, j));
    }
  }

  lemma EaIdsPermuted(xs: seq<Assessment>, ys: seq<Assessment>)
    requires multiset(xs) == multiset(ys)
    ensures Distinct(EaIds(xs)) <==> Distinct(EaIds(ys))
  {
    var id := (a: Assessment) => a.eaId;
    DistinctPermuted(xs, ys, id);
    assert DistinctBy(xs, id) <==> Distinct(EaIds(xs));
    assert DistinctBy(ys, id) <==> Distinct(EaIds(ys));
  }

  lemma FactIdsPermuted(fs: seq<Fact>, gs: seq<Fact>)
    requires multiset(fs) == multiset(gs)
    ensures Distinct(FactIds(fs)) <==> Distinct(FactIds(gs))
  {
    var id := (f: Fact) => f.eaId;
    DistinctPermuted(fs, gs, id);
    assert DistinctBy(fs, id) <==> Distinct(FactIds(fs));
    assert DistinctBy(gs, id) <==> Distinct(FactIds(gs));
  }

  /** Acceptance depends on the assessments, documents and facts as bags. */
  lemma AcceptablePermuted(xs: seq<Assessment>, ys: seq<Assessment>, docs: seq<SupportingDoc>, eds: seq<SupportingDoc>,
                           fs: seq<Fact>, gs: seq<Fact>)
    requires multiset(xs) == multiset(ys) && multiset(docs) == multiset(eds) && multiset(fs) == multiset(gs)
    ensures Acceptable(xs, docs, fs) <==> Acceptable(ys, eds, gs)
  {
    hide Distinct, DistinctAssessments, DistinctFacts, CountOf, Multiplicity, GoodAssessment, Clears;
    DocsCounted(docs);
    DocsCounted(eds);
    DistinctIds(xs, fs);
    DistinctIds(ys, gs);
    SameMembers(xs, ys);
    SameMembers(docs, eds);
    SameMembers(fs, gs);
    EaIdsPermuted(xs, ys);
    FactIdsPermuted(fs, gs);
    CountPermuted(docs, eds, EntropyAssessmentReport);
    CountPermuted(docs, eds, PublicUseDocument);
    CountPermuted(docs, eds, DataCollectionAttestation);
    assert forall a :: Cleared(a, fs) <==> Cleared(a, gs);
  }

  /** Whether a request can be built does not depend on the order of anything. */
  lemma OrderDoesNotMatter(entropyId: string, moduleId: i64, certificate: string, xs: seq<Assessment>, ys: seq<Assessment>,
                           docs: seq<SupportingDoc>, eds: seq<SupportingDoc>, fs: seq<Fact>, gs: seq<Fact>)
    requires multiset(xs) == multiset(ys) && multiset(docs) == multiset(eds) && multiset(fs) == multiset(gs)
    ensures NewCertify(entropyId, moduleId, xs, docs, fs).Ok? <==> NewCertify(entropyId, moduleId, ys, eds, gs).Ok?
    ensures NewAddOe(entropyId, certificate, xs, docs, fs).Ok? <==> NewAddOe(entropyId, certificate, ys, eds, gs).Ok?
  {
    hide NewCertify, NewAddOe, Acceptable;
    AcceptablePermuted(xs, ys, docs, eds, fs, gs);
    CertifyIff(entropyId, moduleId, xs, docs, fs);
    CertifyIff(entropyId, moduleId, ys, eds, gs);
    AddOeIff(entropyId, certificate, xs, docs, fs);
    AddOeIff(entropyId, certificate, ys, eds, gs);
  }
}
