/**
  The certificate walk `_prepareCertificates` (src/index.js:329-352) with the
  synchronous extraction strategy `_prepareValue` (src/index.js:325), and the
  call `_certificates` makes to it (src/index.js:67).

  The walk visits the 1-indexed collection from `index` to `size`. For each
  item it reads the certificate's fields and builds a record; when reading
  throws, the error is logged and the item skipped, and the walk goes on.

  The provider's collection is modelled as the sequence of what reading each
  item yields: the certificate's field values, or the fault raised while
  reading them (by `Item`, by `IsValid`, by a property getter, or by
  `_convertStringToObj` on a name that is not a string).
*/
module CertificateWalk {
  import opened Wrappers
  import DistinguishedName

  /** What a provider call may throw while one certificate is read. */
  datatype Fault =
    | NoSuchItem(index: int)     // `Item(index)` outside 1..Count
    | ProviderError(message: string)

  /** The field values of one provider certificate object, as plain data. */
  datatype Certificate = Certificate(
    issuerName: string,
    serialNumber: string,
    subjectName: string,
    thumbprint: string,
    privateKey: string,
    validFromDate: string,
    validToDate: string,
    isValid: bool,       // `IsValid().Result`
    version: int)

  /** The record the walk builds for one certificate (src/index.js:335-345). */
  datatype CertificateRecord = CertificateRecord(
    issuerName: map<string, Option<string>>,   // `issuer_name`
    serialNumber: string,                       // `serial_number`
    subjectName: map<string, Option<string>>,  // `subject_name`
    thumbprint: string,                         // `thumbprint`
    privateKey: string,                         // `private_key`
    validFromDate: string,                      // `valid_from_date`
    validToDate: string,                        // `valid_to_date`
    isValid: bool,                              // `is_valid`
    version: int)                               // `version`

  /** The provider's collection: what reading each of its items yields. */
  type Collection = seq<Result<Certificate, Fault>>

  /** `_prepareValue`: the synchronous strategy, which passes each value through. */
  function PrepareValue<T>(value: T): (v: T) {
    value
  }

  /** `certificates.Item(index)` and the reads after it: 1-indexed, throwing outside 1..Count. */
  function ItemAt(items: Collection, index: int): (r: Result<Certificate, Fault>)
    ensures r.Success? ==> 1 <= index <= |items|
    ensures !(1 <= index <= |items|) ==> r.Failure? && r.error == NoSuchItem(index)
  {
    if 1 <= index <= |items| then items[index - 1] else Failure(NoSuchItem(index))
  }

  /** The record literal of src/index.js:335-345, built with the synchronous strategy. */
  function Prepare(c: Certificate): (record: CertificateRecord)
    ensures record.issuerName != map[] && record.subjectName != map[]
    ensures record.serialNumber == c.serialNumber && record.thumbprint == c.thumbprint
      && record.privateKey == c.privateKey && record.validFromDate == c.validFromDate
      && record.validToDate == c.validToDate && record.isValid == c.isValid && record.version == c.version
  {
    CertificateRecord(
      DistinguishedName.Converted(PrepareValue(c.issuerName)),
      PrepareValue(c.serialNumber),
      DistinguishedName.Converted(PrepareValue(c.subjectName)),
      PrepareValue(c.thumbprint),
      PrepareValue(c.privateKey),
      PrepareValue(c.validFromDate),
      PrepareValue(c.validToDate),
      PrepareValue(c.isValid),
      PrepareValue(c.version))
  }

  /** What one item adds to the list: its record, or nothing when reading it threw. */
  function Contribution(item: Result<Certificate, Fault>): (records: seq<CertificateRecord>)
    ensures |records| == if item.Success? then 1 else 0
    ensures item.Success? ==> records[0] == Prepare(item.value)
  {
    match item
    case Success(c) => [Prepare(c)]
    case Failure(_) => []
  }

  /**
    `_prepareCertificates(certificates, list, size, index, _prepareValue)`
    with the evidently intended accumulation `list := list.concat(record)`:
    while `index <= size`, add the item's record (or nothing) and move to
    `index + 1`; then return the list.
  */
  function PrepareCertificates(items: Collection, list: seq<CertificateRecord>, size: int, index: int)
    : (r: seq<CertificateRecord>)
    ensures index > size ==> r == list
    ensures |list| <= |r| <= |list| + (if index <= size then size - index + 1 else 0)
    decreases size - index
  {
    if index <= size then
      PrepareCertificates(items, list + Contribution(ItemAt(items, index)), size, index + 1)
    else
      list
  }

  /** The reference: the records of the items that could be read, in collection order. */
  function Readable(items: Collection): (r: seq<CertificateRecord>)
    ensures |r| == CountReadable(items)
    decreases |items|
  {
    if items == [] then [] else Contribution(items[0]) + Readable(items[1..])
  }

  /** How many items can be read. */
  function CountReadable(items: Collection): (n: nat)
    ensures n <= |items|
    decreases |items|
  {
    if items == [] then 0 else (if items[0].Success? then 1 else 0) + CountReadable(items[1..])
  }

  lemma {:induction false} ReadableAppend(a: Collection, b: Collection)
    ensures Readable(a + b) == Readable(a) + Readable(b)
    decreases |a|
  {
    if a == [] {
      assert a + b == b;
    } else {
      assert (a + b)[1..] == a[1..] + b;
      ReadableAppend(a[1..], b);
    }
  }

  /** An unreadable item contributes nothing. */
  lemma ReadableSkip(before: Collection, item: Result<Certificate, Fault>, after: Collection)
    requires item.Failure?
    ensures Readable(before + [item] + after) == Readable(before) + Readable(after)
  {
    var withItem := before + [item];
    ReadableAppend(withItem, after);
    ReadableAppend(before, [item]);
    assert Readable([item]) == [] by { assert [item][1..] == []; }
    assert Readable(withItem) == Readable(before);
    assert before + [item] + after == withItem + after;
  }

  /**
    For a walk from `index` to `size` inside the collection, every index is
    visited once, in increasing order: the result is the list followed by the
    records of the readable items `index..size`.
  */
  lemma {:induction false} WalkReadsRange(items: Collection, list: seq<CertificateRecord>, size: int, index: int)
    requires 1 <= index <= size + 1 && size <= |items|
    ensures PrepareCertificates(items, list, size, index) == list + Readable(items[index - 1..size])
    decreases size - index
  {
    if index <= size {
      var item, rest := items[index - 1], items[index..size];
      var step := Contribution(item);
      WalkStep(items, list, size, index);
      WalkReadsRange(items, list + step, size, index + 1);
      SliceCons(items, index - 1, size);
      ReadableCons(item, rest);
      AppendAssociates(list, step, Readable(rest));
    } else {
      assert items[index - 1..size] == [];
    }
  }

  /** One step of the walk reads the item at `index`. */
  lemma WalkStep(items: Collection, list: seq<CertificateRecord>, size: int, index: int)
    requires 1 <= index <= size && size <= |items|
    ensures PrepareCertificates(items, list, size, index)
      == PrepareCertificates(items, list + Contribution(items[index - 1]), size, index + 1)
  {
    assert ItemAt(items, index) == items[index - 1];
  }

  lemma SliceCons<T>(s: seq<T>, i: nat, j: nat)
    requires i < j <= |s|
    ensures s[i..j] == [s[i]] + s[i + 1..j]
  {
  }

  lemma AppendAssociates<T>(a: seq<T>, b: seq<T>, c: seq<T>)
    ensures a + b + c == a + (b + c)
  {
  }

  /** The first item's contribution comes first. */
  lemma ReadableCons(item: Result<Certificate, Fault>, rest: Collection)
    ensures Readable([item] + rest) == Contribution(item) + Readable(rest)
  {
    var items := [item] + rest;
    assert items[0] == item && items[1..] == rest;
  }

  /**
    The list `_certificates` resolves with (src/index.js:65-67), with the
    intended append of the walk (the code as written loses every record, see
    `PrepareCertificatesAsWritten`): the walk over 1..Count.
  */
  function ListCertificates(items: Collection): (r: seq<CertificateRecord>)
    ensures r == Readable(items)
    ensures |r| == CountReadable(items)
  {
    WalkReadsRange(items, [], |items|, 1);
    assert items[0..|items|] == items;
    PrepareCertificates(items, [], |items|, 1)
  }

  /**
    An unreadable certificate is skipped and the walk goes on: the list is
    the one the store would give without that certificate.
  */
  lemma UnreadableIsSkipped(before: Collection, bad: Result<Certificate, Fault>, after: Collection)
    requires bad.Failure?
    ensures ListCertificates(before + [bad] + after) == ListCertificates(before + after)
  {
    ReadableSkip(before, bad, after);
    ReadableAppend(before, after);
  }

  /**
    A store of N certificates in which only one cannot be read lists N - 1
    records: those of the other certificates, in order.
  */
  lemma OneUnreadableAmongReadable(before: Collection, bad: Result<Certificate, Fault>, after: Collection)
    requires bad.Failure?
    requires forall j :: 0 <= j < |before| ==> before[j].Success?
    requires forall j :: 0 <= j < |after| ==> after[j].Success?
    ensures |ListCertificates(before + [bad] + after)| == |before + [bad] + after| - 1
    ensures forall j :: 0 <= j < |before| ==> ListCertificates(before + [bad] + after)[j] == Prepare(before[j].value)
    ensures forall j :: 0 <= j < |after| ==>
      ListCertificates(before + [bad] + after)[|before| + j] == Prepare(after[j].value)
  {
    var r := ListCertificates(before + [bad] + after);
    ListingSkips(before, bad, after);
    RecordsOfReadable(before, after, r);
  }

  /** The listing around an unreadable certificate is the records before it followed by those after it. */
  lemma ListingSkips(before: Collection, bad: Result<Certificate, Fault>, after: Collection)
    requires bad.Failure?
    ensures ListCertificates(before + [bad] + after) == Readable(before) + Readable(after)
  {
    ReadableSkip(before, bad, after);
  }

  /** The records of two stretches of readable items: item j's record at j, then the second stretch's. */
  lemma RecordsOfReadable(before: Collection, after: Collection, r: seq<CertificateRecord>)
    requires forall j :: 0 <= j < |before| ==> before[j].Success?
    requires forall j :: 0 <= j < |after| ==> after[j].Success?
    requires r == Readable(before) + Readable(after)
    ensures |r| == |before| + |after|
    ensures forall j :: 0 <= j < |before| ==> r[j] == Prepare(before[j].value)
    ensures forall j :: 0 <= j < |after| ==> r[|before| + j] == Prepare(after[j].value)
  {
    var both := before + after;
    forall j | 0 <= j < |both| ensures both[j].Success? {
      if j >= |before| {
        assert both[j] == after[j - |before|];
      }
    }
    AllReadable(both);
    ReadableAppend(before, after);
    forall j | 0 <= j < |before| ensures r[j] == Prepare(before[j].value) {
      assert both[j] == before[j];
    }
    forall j | 0 <= j < |after| ensures r[|before| + j] == Prepare(after[j].value) {
      assert both[|before| + j] == after[j];
    }
  }

  /** When every item can be read, the records are those of the items, one for one. */
  lemma {:induction false} AllReadable(items: Collection)
    requires forall j :: 0 <= j < |items| ==> items[j].Success?
    ensures |Readable(items)| == |items|
    ensures forall j :: 0 <= j < |items| ==> Readable(items)[j] == Prepare(items[j].value)
    decreases |items|
  {
    if items != [] {
      var head, rest := items[0], items[1..];
      assert items == [head] + rest;
      forall j | 0 <= j < |rest| ensures rest[j].Success? {
        assert rest[j] == items[j + 1];
      }
      AllReadable(rest);
      ReadableCons(head, rest);
      var r, tail := Readable(items), Readable(rest);
      assert r == [Prepare(head.value)] + tail;
      forall j | 0 <= j < |items| ensures r[j] == Prepare(items[j].value) {
        if j > 0 {
          assert r[j] == tail[j - 1] && rest[j - 1] == items[j];
        }
      }
    }
  }

  /**
    The walk exactly as written at src/index.js:335: `list.concat(...)`
    returns a new array that is thrown away, so `list` itself never grows.
  */
  function PrepareCertificatesAsWritten(items: Collection, list: seq<CertificateRecord>, size: int, index: int)
    : (r: seq<CertificateRecord>)
    ensures |r| == |list|
    decreases size - index
  {
    if index <= size then
      var discarded := list + Contribution(ItemAt(items, index));
      PrepareCertificatesAsWritten(items, list, size, index + 1)
    else
      list
  }

  /** As written, the walk returns the list it was given, whatever the collection holds. */
  lemma {:induction false} AsWrittenReturnsInput(items: Collection, list: seq<CertificateRecord>, size: int, index: int)
    ensures PrepareCertificatesAsWritten(items, list, size, index) == list
    decreases size - index
  {
    if index <= size {
      AsWrittenReturnsInput(items, list, size, index + 1);
    }
  }

  /**
    A store holding one readable certificate: `_certificates` as written
    resolves with `[]`, while the intended walk lists the certificate.
  */
  lemma AsWrittenLosesCertificates(c: Certificate)
    ensures PrepareCertificatesAsWritten([Success(c)], [], 1, 1) == []
    ensures ListCertificates([Success(c)]) == [Prepare(c)]
  {
    var items: Collection := [Success(c)];
    AsWrittenReturnsInput(items, [], 1, 1);
    assert Readable(items) == [Prepare(c)] by {
      assert items[1..] == [];
    }
  }
}
