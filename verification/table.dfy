/** The translation table of `lib/jsxgettext.js`: the skeleton `extract`
    starts from, the optional replacement by a loaded catalog, the header
    defaults, the scan, and the key sort `compile` applies before handing the
    table to the PO writer. */
module Table {
  import opened Wrappers
  import opened Strings
  import opened JsObject
  import opened Traverse
  import opened Catalog

  /** The object handed to the PO writer. */
  datatype Table = Table(charset: string, headers: Obj<string>, translations: Translations)

  /** What a parsed catalog contributes when `join-existing` is set. */
  datatype Existing = Existing(headers: Obj<string>, translations: Translations)

  /** The options `extract` and `compile` read. `existing` stands for the
      catalog read and parsed when `join-existing` is set, and is `None`
      when it is not. */
  datatype ExtractOptions = ExtractOptions(existing: Option<Existing>, sort: bool, scan: ScanOptions)

  /** The comment printed above the PO header. */
  const HeaderComment: string :=
    "SOME DESCRIPTIVE TITLE.\n" +
    "Copyright (C) YEAR THE PACKAGE'S COPYRIGHT HOLDER\n" +
    "This file is distributed under the same license as" +
    "the PACKAGE package.\n" +
    "FIRST AUTHOR <EMAIL@ADDRESS>, YEAR."

  /** The entry under the empty `msgid` of the default context, which only
      carries the header comment. */
  const HeaderEntry: Entry := Entry(None, None, None, Some(Comments(None, Some(HeaderComment), map[])), map[])

  /** Every context and every bucket has distinct keys, as the properties of
      a JavaScript object do. */
  ghost predicate WellFormed(tr: Translations) {
    && UniqueKeys(tr)
    && forall i :: 0 <= i < |tr| ==> UniqueKeys(tr[i].1)
  }

  /** The table `extract` starts from: UTF-8, no headers, and a default
      context holding only the header comment entry. */
  function Skeleton(): (t: Table)
    ensures WellFormed(t.translations)
    ensures Get(t.translations, "") == Some([("", HeaderEntry)])
  {
    Table("utf-8", [], [("", [("", HeaderEntry)])])
  }

  /** With `join-existing`, the loaded headers and translations replace the
      skeleton's; the charset stays. */
  function JoinExisting(t: Table, existing: Option<Existing>): (r: Table)
    ensures r.charset == t.charset
    ensures existing.None? ==> r == t
    ensures existing.Some? ==> r.headers == existing.value.headers && r.translations == existing.value.translations
  {
    match existing
    case None => t
    case Some(e) => t.(headers := e.headers, translations := e.translations)
  }

  // ---------------------------------------------------------------------------
  // Header defaults

  /** `_.defaults(o, d)`: every key of `d` the object lacks is appended with
      `d`'s value, in `d`'s order; keys the object has keep their value. */
  function Defaults(o: Obj<string>, d: Obj<string>): Obj<string>
    decreases |d|
  {
    if |d| == 0 then o
    else Defaults(if d[0].0 in Keys(o) then o else o + [d[0]], d[1..])
  }

  lemma GetAppendNew<V>(o: Obj<V>, k: string, v: V)
    requires k !in Keys(o)
    ensures Get(o + [(k, v)], k) == Some(v)
  {
    var r := o + [(k, v)];
    assert Keys(r)[|o|] == k;
    KeyIndexIs(r, k, |o|);
  }

  lemma GetAppendOther<V>(o: Obj<V>, x: (string, V), k: string)
    requires k != x.0
    ensures Get(o + [x], k) == Get(o, k)
  {
    KeyIndexAppend(o, x.0, x.1, k);
  }

  /** A lookup in a non-empty object: the head, or the rest. */
  lemma GetCons<V>(o: Obj<V>, k: string)
    requires |o| > 0
    ensures Get(o, k) == if o[0].0 == k then Some(o[0].1) else Get(o[1..], k)
  {
    if o[0].0 != k {
      var i := KeyIndex(o[1..], k);
      KeyIndexIs(o, k, if i < 0 then -1 else i + 1);
    }
  }

  /** One step of `_.defaults`. */
  function DefaultStep(o: Obj<string>, x: (string, string)): Obj<string> {
    if x.0 in Keys(o) then o else o + [x]
  }

  lemma DefaultStepGet(o: Obj<string>, x: (string, string), k: string)
    ensures Get(DefaultStep(o, x), k) == if k in Keys(o) || k != x.0 then Get(o, k) else Some(x.1)
    ensures k in Keys(DefaultStep(o, x)) <==> k in Keys(o) || k == x.0
  {
    if x.0 !in Keys(o) {
      if k == x.0 {
        GetAppendNew(o, x.0, x.1);
      } else {
        GetAppendOther(o, x, k);
      }
    }
  }

  /** A header the object has keeps its value; a missing one takes the
      default's value; no other key appears. */
  lemma {:induction false} DefaultsGet(o: Obj<string>, d: Obj<string>, k: string)
    ensures Get(Defaults(o, d), k) == if k in Keys(o) then Get(o, k) else Get(d, k)
    decreases |d|
  {
    if |d| > 0 {
      var o' := DefaultStep(o, d[0]);
      assert Defaults(o, d) == Defaults(o', d[1..]);
      DefaultsGet(o', d[1..], k);
      DefaultStepGet(o, d[0], k);
      GetCons(d, k);
    }
  }

  lemma KeysSnoc<V>(o: Obj<V>, x: (string, V))
    ensures Keys(o + [x]) == Keys(o) + [x.0]
  {
  }

  lemma KeysTail<V>(o: Obj<V>)
    requires |o| > 0
    ensures Keys(o)[0] == o[0].0 && Keys(o)[1..] == Keys(o[1..])
  {
  }

  /** The keys after `_.defaults`: the object's own, then the default keys it
      lacked, each once and in the defaults' order, as `AppendAbsent` lists
      them. */
  lemma {:induction false} DefaultsKeys(o: Obj<string>, d: Obj<string>)
    ensures Keys(Defaults(o, d)) == AppendAbsent(Keys(o), Keys(d))
    decreases |d|
  {
    if |d| > 0 {
      var o' := DefaultStep(o, d[0]);
      assert Defaults(o, d) == Defaults(o', d[1..]);
      DefaultsKeys(o', d[1..]);
      var ks, kd := Keys(o), Keys(d);
      KeysTail(d);
      KeysSnoc(o, d[0]);
      AppendAbsentStep(ks, kd);
    }
  }

  /** One step of `AppendAbsent`. */
  lemma AppendAbsentStep(xs: seq<string>, ys: seq<string>)
    requires |ys| > 0
    ensures AppendAbsent(xs, ys) == AppendAbsent(if ys[0] in xs then xs else xs + [ys[0]], ys[1..])
  {
  }

  /** `_.defaults` keeps the keys of a JavaScript object distinct. */
  lemma DefaultsUnique(o: Obj<string>, d: Obj<string>)
    requires UniqueKeys(o)
    ensures UniqueKeys(Defaults(o, d))
  {
    DefaultsKeys(o, d);
    var r := Defaults(o, d);
    assert NoDup(Keys(o)) by {
      forall i, j | 0 <= i < j < |Keys(o)| ensures Keys(o)[i] != Keys(o)[j] {
        assert o[i].0 != o[j].0;
      }
    }
    AppendAbsentNoDup(Keys(o), Keys(d));
    forall i, j | 0 <= i < j < |r| ensures r[i].0 != r[j].0 {
      assert Keys(r)[i] != Keys(r)[j];
    }
  }

  /** The ten default headers; `timestamp` is the POT creation date the clock
      supplies. */
  function DefaultHeaders(timestamp: string): Obj<string> {
    [ ("project-id-version", "PACKAGE VERSION"),
      ("report-msgid-bugs-to", ""),
      ("pot-creation-date", timestamp),
      ("po-revision-date", "YEAR-MO-DA HO:MI+ZONE"),
      ("last-translator", "FULL NAME <EMAIL@ADDRESS>"),
      ("language-team", "LANGUAGE <LL@li.org>"),
      ("language", ""),
      ("mime-version", "1.0"),
      ("content-type", "text/plain; charset=UTF-8"),
      ("content-transfer-encoding", "8bit") ]
  }

  /** The ten header names are distinct: they differ in length, except
      `mime-version` and `content-type`, which differ in their first letter. */
  lemma DefaultHeadersUnique(timestamp: string)
    ensures UniqueKeys(DefaultHeaders(timestamp))
  {
    var d := DefaultHeaders(timestamp);
    var lengths := [18, 20, 17, 16, 15, 13, 8, 12, 12, 25];
    assert forall i :: 0 <= i < 10 ==> |d[i].0| == lengths[i];
    assert d[7].0[0] != d[8].0[0];
  }

  /** The headers after `_.defaults(table.headers, { … })`, where the
      creation date is `getPOTTimeStamp()` of the clock's ISO string `iso`. */
  function ApplyDefaults(t: Table, iso: string): (r: Table)
    ensures r.charset == t.charset && r.translations == t.translations
  {
    t.(headers := Defaults(t.headers, DefaultHeaders(PotTimeStamp(iso))))
  }

  /** Starting from no headers, the headers are exactly the defaults, in
      their order. */
  lemma {:induction false} DefaultsOfEmpty(d: Obj<string>)
    requires UniqueKeys(d)
    ensures Defaults([], d) == d
  {
    var i := 0;
    while i < |d|
      invariant 0 <= i <= |d|
      invariant Defaults([], d) == Defaults(d[..i], d[i..])
    {
      assert d[i..][0] == d[i];
      assert d[i].0 !in Keys(d[..i]) by {
        forall j | 0 <= j < i ensures d[..i][j].0 != d[i].0 {
          assert d[..i][j] == d[j];
        }
      }
      assert d[..i] + [d[i]] == d[..i + 1];
      assert d[i..][1..] == d[i + 1..];
      i := i + 1;
    }
    assert d[..|d|] == d;
  }

  // ---------------------------------------------------------------------------
  // The POT timestamp

  predicate IsDigit(c: char) {
    '0' <= c <= '9'
  }

  /** `s.replace('T', ' ')`: the first `T` only. */
  function ReplaceFirstT(s: string): (r: string)
    ensures |r| == |s|
    ensures 'T' !in s ==> r == s
  {
    if |s| == 0 then ""
    else if s[0] == 'T' then [' '] + s[1..]
    else [s[0]] + ReplaceFirstT(s[1..])
  }

  /** `/:\d{2}.\d{3}Z/` matches at `i`: a colon, two digits, any character
      but a line terminator, three digits, `Z`. */
  predicate SecondsAt(s: string, i: nat) {
    && i + 8 <= |s|
    && s[i] == ':' && IsDigit(s[i + 1]) && IsDigit(s[i + 2])
    && !IsLineTerminator(s[i + 3])
    && IsDigit(s[i + 4]) && IsDigit(s[i + 5]) && IsDigit(s[i + 6])
    && s[i + 7] == 'Z'
  }

  /** `s.replace(/:\d{2}.\d{3}Z/, '+0000')` from position `i` on: the first
      match only. */
  function ReplaceSeconds(s: string, i: nat): string
    requires i <= |s|
    decreases |s| - i
  {
    if i + 8 > |s| then s
    else if SecondsAt(s, i) then s[..i] + "+0000" + s[i + 8..]
    else ReplaceSeconds(s, i + 1)
  }

  /** `getPOTTimeStamp()` given the clock's `toISOString()`. */
  function PotTimeStamp(iso: string): string {
    ReplaceSeconds(ReplaceFirstT(iso), 0)
  }

  /** The shape of `Date.prototype.toISOString` for years 0 to 9999:
      `YYYY-MM-DDTHH:mm:ss.sssZ`. */
  predicate IsIsoString(s: string) {
    && |s| == 24
    && (forall i :: i in {0, 1, 2, 3, 5, 6, 8, 9, 11, 12, 14, 15, 17, 18, 20, 21, 22} ==> IsDigit(s[i]))
    && s[4] == '-' && s[7] == '-' && s[10] == 'T'
    && s[13] == ':' && s[16] == ':' && s[19] == '.' && s[23] == 'Z'
  }

  lemma ReplaceFirstTAt(s: string, k: nat)
    requires k < |s| && s[k] == 'T' && 'T' !in s[..k]
    ensures ReplaceFirstT(s) == s[..k] + " " + s[k + 1..]
    decreases k
  {
    if k > 0 {
      assert s[1..][..k - 1] == s[..k][1..];
      ReplaceFirstTAt(s[1..], k - 1);
      assert s[..k] == [s[0]] + s[1..][..k - 1];
    }
  }

  lemma {:induction false} ReplaceSecondsSkip(s: string, i: nat, k: nat)
    requires i <= k && k + 8 <= |s|
    requires forall j :: i <= j < k ==> !SecondsAt(s, j)
    ensures ReplaceSeconds(s, i) == ReplaceSeconds(s, k)
    decreases k - i
  {
    if i < k {
      ReplaceSecondsSkip(s, i + 1, k);
    }
  }

  /** An ISO string after its `T` became a space: `YYYY-MM-DD HH:mm:ss.sssZ`. */
  predicate IsSpacedIso(s: string) {
    && |s| == 24
    && (forall i :: i in {0, 1, 2, 3, 5, 6, 8, 9, 11, 12, 14, 15, 17, 18, 20, 21, 22} ==> IsDigit(s[i]))
    && s[4] == '-' && s[7] == '-' && s[10] == ' '
    && s[13] == ':' && s[16] == ':' && s[19] == '.' && s[23] == 'Z'
  }

  /** The first `T` of an ISO string is the date/time separator. */
  lemma ReplaceFirstTOfIso(iso: string)
    requires IsIsoString(iso)
    ensures ReplaceFirstT(iso) == iso[..10] + " " + iso[11..]
    ensures IsSpacedIso(ReplaceFirstT(iso))
  {
    assert forall i :: 0 <= i < 10 ==> iso[i] != 'T' by {
      assert IsDigit(iso[0]) && IsDigit(iso[1]) && IsDigit(iso[2]) && IsDigit(iso[3]);
      assert IsDigit(iso[5]) && IsDigit(iso[6]) && IsDigit(iso[8]) && IsDigit(iso[9]);
    }
    ReplaceFirstTAt(iso, 10);
    var s := ReplaceFirstT(iso);
    assert forall i :: 0 <= i < 24 && i != 10 ==> s[i] == iso[i];
  }

  /** The only seconds field of a spaced ISO string starts at index 16. */
  lemma ReplaceSecondsOfSpacedIso(s: string)
    requires IsSpacedIso(s)
    ensures ReplaceSeconds(s, 0) == s[..16] + "+0000"
  {
    assert IsDigit(s[11]) && IsDigit(s[12]) && IsDigit(s[14]) && IsDigit(s[15]);
    assert IsDigit(s[17]) && IsDigit(s[18]) && IsDigit(s[20]) && IsDigit(s[21]) && IsDigit(s[22]);
    forall j | 0 <= j < 16 ensures !SecondsAt(s, j) {
      if j == 13 {
        assert !IsDigit(s[19]);
      } else {
        assert s[j] != ':';
      }
    }
    ReplaceSecondsSkip(s, 0, 16);
    assert SecondsAt(s, 16);
  }

  /** On an ISO string, the timestamp is `YYYY-MM-DD HH:mm+0000`: the date, a
      space, hours and minutes, and a zero UTC offset. */
  lemma PotTimeStampOfIso(iso: string)
    requires IsIsoString(iso)
    ensures PotTimeStamp(iso) == iso[..10] + " " + iso[11..16] + "+0000"
  {
    ReplaceFirstTOfIso(iso);
    var s := ReplaceFirstT(iso);
    ReplaceSecondsOfSpacedIso(s);
    assert s[..16] == iso[..10] + " " + iso[11..16];
  }

  // ---------------------------------------------------------------------------
  // The sort in `compile`

  /** Each context's entries rebuilt in ascending `msgid` order. */
  function SortBuckets(tr: Translations): (r: Translations)
    ensures Keys(r) == Keys(tr)
    ensures forall i :: 0 <= i < |r| ==> r[i].1 == SortByKey(tr[i].1)
  {
    if |tr| == 0 then [] else [(tr[0].0, SortByKey(tr[0].1))] + SortBuckets(tr[1..])
  }

  /** Contexts in ascending order, and within each context the entries in
      ascending `msgid` order. */
  function SortTranslations(tr: Translations): Translations {
    SortByKey(SortBuckets(tr))
  }

  /** Both levels in ascending key order. */
  ghost predicate FullySorted(tr: Translations) {
    && SortedByKey(tr)
    && forall i :: 0 <= i < |tr| ==> SortedByKey(tr[i].1)
  }

  /** `translations[c][k]`, absent when either level lacks the key. */
  function Lookup(tr: Translations, c: string, k: string): Option<Entry> {
    match Get(tr, c)
    case None => None
    case Some(b) => Get(b, k)
  }

  lemma SortBucketsUnique(tr: Translations)
    requires UniqueKeys(tr)
    ensures UniqueKeys(SortBuckets(tr))
  {
    var b := SortBuckets(tr);
    forall i, j | 0 <= i < j < |b| ensures b[i].0 != b[j].0 {
      assert Keys(b)[i] == Keys(tr)[i] && Keys(b)[j] == Keys(tr)[j];
    }
  }

  lemma GetSortBuckets(tr: Translations, c: string)
    ensures Get(tr, c).None? ==> Get(SortBuckets(tr), c).None?
    ensures Get(tr, c).Some? ==> Get(SortBuckets(tr), c) == Some(SortByKey(Get(tr, c).value))
  {
    KeyIndexSameKeys(tr, SortBuckets(tr), c);
  }

  /** Sorting moves nothing between contexts or keys: every lookup gives what
      it gave before, and the set of contexts is the same. */
  lemma SortTranslationsLookup(tr: Translations, c: string, k: string)
    requires WellFormed(tr)
    ensures Lookup(SortTranslations(tr), c, k) == Lookup(tr, c, k)
    ensures Get(SortTranslations(tr), c).Some? <==> Get(tr, c).Some?
  {
    var b := SortBuckets(tr);
    SortBucketsUnique(tr);
    SortByKeyGet(b, c);
    GetSortBuckets(tr, c);
    if Get(tr, c).Some? {
      var i := KeyIndex(tr, c);
      assert Get(tr, c).value == tr[i].1;
      SortByKeyGet(tr[i].1, k);
    }
  }

  /** After the sort both levels are in ascending order. */
  lemma SortTranslationsSorted(tr: Translations)
    requires WellFormed(tr)
    ensures FullySorted(SortTranslations(tr))
  {
    var b := SortBuckets(tr);
    SortBucketsUnique(tr);
    SortByKeyAscending(b);
    SortBucketsInner(tr);
    var r := SortByKey(b);
    forall i | 0 <= i < |r| ensures SortedByKey(r[i].1) {
      assert r[i] in multiset(b);
      var j :| 0 <= j < |b| && b[j] == r[i];
    }
  }

  /** Each bucket of `SortBuckets` is in ascending order. */
  lemma SortBucketsInner(tr: Translations)
    requires WellFormed(tr)
    ensures forall j :: 0 <= j < |SortBuckets(tr)| ==> SortedByKey(SortBuckets(tr)[j].1)
  {
    var b := SortBuckets(tr);
    forall j | 0 <= j < |b| ensures SortedByKey(b[j].1) {
      SortByKeyAscending(tr[j].1);
    }
  }

  /** A table already sorted at both levels is left as it is, so sorting
      twice is sorting once. */
  lemma {:induction false} SortTranslationsOfSorted(tr: Translations)
    requires FullySorted(tr)
    ensures WellFormed(tr) && SortTranslations(tr) == tr
  {
    SortedUnique(tr);
    forall i | 0 <= i < |tr| ensures UniqueKeys(tr[i].1) {
      SortedUnique(tr[i].1);
    }
    var b := SortBuckets(tr);
    forall i | 0 <= i < |tr| ensures b[i] == tr[i] {
      SortByKeySorted(tr[i].1);
      assert b[i].0 == Keys(b)[i] == Keys(tr)[i];
    }
    assert b == tr;
    SortByKeySorted(tr);
  }

  /** `compile` up to the PO writer: the translations are sorted when
      `sort` is set and passed on untouched otherwise. */
  function Compile(t: Table, sort: bool): (r: Table)
    ensures r.charset == t.charset && r.headers == t.headers
    ensures !sort ==> r == t
  {
    if sort then t.(translations := SortTranslations(t.translations)) else t
  }

  /** With `sort`, both levels come out ascending with every lookup as
      before; sorting an already compiled table changes nothing more. */
  lemma CompileSorts(t: Table, c: string, k: string)
    requires WellFormed(t.translations)
    ensures FullySorted(Compile(t, true).translations)
    ensures Lookup(Compile(t, true).translations, c, k) == Lookup(t.translations, c, k)
    ensures Compile(Compile(t, true), true) == Compile(t, true)
  {
    SortTranslationsSorted(t.translations);
    SortTranslationsLookup(t.translations, c, k);
    SortTranslationsOfSorted(Compile(t, true).translations);
  }

  // ---------------------------------------------------------------------------
  // The pipeline

  lemma {:induction false} FoldHitsUnique(bucket: Bucket, hs: seq<(string, Hit)>, a: AddComments)
    requires UniqueKeys(bucket)
    ensures UniqueKeys(FoldHits(bucket, hs, a))
    decreases |hs|
  {
    if |hs| > 0 {
      var b := MergeHit(bucket, hs[0].0, hs[0].1, a);
      assert UniqueKeys(b) by {
        forall i, j | 0 <= i < j < |b| ensures b[i].0 != b[j].0 {
          assert Keys(b)[i] == b[i].0 && Keys(b)[j] == b[j].0;
          if hs[0].1.msgid !in Keys(bucket) && j == |bucket| {
            assert Keys(bucket)[i] == bucket[i].0;
          } else {
            assert Keys(bucket)[i] == bucket[i].0 && Keys(bucket)[j] == bucket[j].0;
          }
        }
      }
      FoldHitsUnique(b, hs[1..], a);
    }
  }

  /** The scan keeps the table well formed. */
  lemma ScanSourcesWellFormed(sources: seq<Source>, tr: Translations, opts: ScanOptions)
    requires WellFormed(tr)
    ensures ScanSources(sources, tr, opts).Ok? ==> WellFormed(ScanSources(sources, tr, opts).value)
  {
    if ScanSources(sources, tr, opts).Ok? {
      var r := ScanSources(sources, tr, opts).value;
      assert UniqueKeys(r) by {
        forall i, j | 0 <= i < j < |r| ensures r[i].0 != r[j].0 {
          assert Keys(r)[i] == Keys(tr)[i] && Keys(r)[j] == Keys(tr)[j];
        }
      }
      forall i | 0 <= i < |r| ensures UniqueKeys(r[i].1) {
        var c := r[i].0;
        GetMember(r, c, r[i].1);
        assert Keys(r)[i] == Keys(tr)[i];
        GetMember(tr, c, tr[i].1);
        if c == "" && |AllHits(sources, opts.keyword)| > 0 {
          FoldHitsUnique(tr[i].1, AllHits(sources, opts.keyword), opts.addComments);
        }
      }
    }
  }

  /** `extract(sources, options)` up to the PO writer: the skeleton, the
      loaded catalog when joining, the header defaults, the scan, then
      `compile`. The scan's error, a hit with no default context, can only
      arise from a loaded catalog. */
  function Extract(sources: seq<Source>, opts: ExtractOptions, iso: string): (r: Result<Table, ScanError>)
    ensures opts.existing.None? ==> r.Ok?
    ensures r.Err? <==>
      && opts.existing.Some?
      && |AllHits(sources, opts.scan.keyword)| > 0
      && "" !in Keys(opts.existing.value.translations)
    ensures r.Ok? ==> r.value.charset == "utf-8"
    ensures r.Ok? ==> r.value.headers == Defaults(JoinExisting(Skeleton(), opts.existing).headers, DefaultHeaders(PotTimeStamp(iso)))
  {
    var t := ApplyDefaults(JoinExisting(Skeleton(), opts.existing), iso);
    match ScanSources(sources, t.translations, opts.scan)
    case Err(e) => Err(e)
    case Ok(tr) => Ok(Compile(t.(translations := tr), opts.sort))
  }

  /** With `sort`, the extracted catalog is ascending at both levels, unless
      a loaded catalog already repeats a key. */
  lemma ExtractSorted(sources: seq<Source>, opts: ExtractOptions, iso: string)
    requires opts.sort
    requires opts.existing.Some? ==> WellFormed(opts.existing.value.translations)
    ensures Extract(sources, opts, iso).Ok? ==>
      FullySorted(Extract(sources, opts, iso).value.translations)
  {
    var t := ApplyDefaults(JoinExisting(Skeleton(), opts.existing), iso);
    if ScanSources(sources, t.translations, opts.scan).Ok? {
      ScanSourcesWellFormed(sources, t.translations, opts.scan);
      var tr := ScanSources(sources, t.translations, opts.scan).value;
      SortTranslationsSorted(tr);
    }
  }

  /** Without joining, the headers are exactly the ten defaults in order, and
      with joining a loaded header keeps its value while a missing one takes
      its default. */
  lemma ExtractHeaders(sources: seq<Source>, opts: ExtractOptions, iso: string, k: string)
    ensures opts.existing.None? ==>
      Extract(sources, opts, iso).value.headers == DefaultHeaders(PotTimeStamp(iso))
    ensures opts.existing.Some? && Extract(sources, opts, iso).Ok? ==>
      Get(Extract(sources, opts, iso).value.headers, k) ==
        if k in Keys(opts.existing.value.headers) then Get(opts.existing.value.headers, k)
        else Get(DefaultHeaders(PotTimeStamp(iso)), k)
  {
    var d := DefaultHeaders(PotTimeStamp(iso));
    if opts.existing.None? {
      DefaultHeadersUnique(PotTimeStamp(iso));
      DefaultsOfEmpty(d);
    } else {
      DefaultsGet(opts.existing.value.headers, d, k);
    }
  }

  /** The creation date `extract` writes, unless a loaded catalog already
      has one, is `YYYY-MM-DD HH:mm+0000` of the clock's ISO string. */
  lemma ExtractCreationDate(sources: seq<Source>, opts: ExtractOptions, iso: string)
    requires IsIsoString(iso)
    ensures opts.existing.None? || "pot-creation-date" !in Keys(opts.existing.value.headers) ==>
      Extract(sources, opts, iso).Ok? ==>
      Get(Extract(sources, opts, iso).value.headers, "pot-creation-date")
        == Some(iso[..10] + " " + iso[11..16] + "+0000")
  {
    var d := DefaultHeaders(PotTimeStamp(iso));
    var joined := JoinExisting(Skeleton(), opts.existing).headers;
    if opts.existing.None? || "pot-creation-date" !in Keys(opts.existing.value.headers) {
      assert "pot-creation-date" !in Keys(joined);
      DefaultsGet(joined, d, "pot-creation-date");
      CreationDateDefault(PotTimeStamp(iso));
      PotTimeStampOfIso(iso);
    }
  }

  /** The default `pot-creation-date` header is the given timestamp. */
  lemma CreationDateDefault(timestamp: string)
    ensures Get(DefaultHeaders(timestamp), "pot-creation-date") == Some(timestamp)
  {
    var d := DefaultHeaders(timestamp);
    assert |d[0].0| != 17 && |d[1].0| != 17;
    KeyIndexIs(d, "pot-creation-date", 2);
  }
}
