/** The catalog side of `lib/scanners/javascript.js`: the translation entries,
    the `add-comments` filter, and the merge of every hit into the
    `msgid -> entry` object of the default context `""`, followed by the scan
    of all sources in order. */
module Catalog {
  import opened Wrappers
  import opened Strings
  import opened JsObject
  import opened JsAst
  import opened Traverse

  /** `msgstr`: a fresh entry holds a plain string; a loaded catalog holds the
      list of translated forms. */
  datatype MsgStr = Single(text: string) | Forms(forms: seq<string>)

  /** `entry.comments`: the reference and translator comments the scanner
      rewrites, and whatever other comment kinds a loaded catalog carries
      (extracted, flag, previous), which it leaves alone. */
  datatype Comments = Comments(reference: Option<string>, translator: Option<string>, others: map<string, string>)

  /** One translation entry. `None` is a property the object does not have;
      `others` holds any further properties of a loaded entry. */
  datatype Entry = Entry(
    msgctxt: Option<string>,
    msgid: Option<string>,
    msgstr: Option<MsgStr>,
    comments: Option<Comments>,
    others: map<string, string>)

  /** The entries of one context, by `msgid`. */
  type Bucket = Obj<Entry>

  /** `table.translations`: context -> msgid -> entry. */
  type Translations = Obj<Bucket>

  /** `options['add-comments']`: absent, a boolean, or a tag string. */
  datatype AddComments = Unset | Flag(on: bool) | Tag(tag: string)

  datatype ScanOptions = ScanOptions(keyword: Option<string>, addComments: AddComments)

  /** A source file: its name and the syntax tree of its text (after
      `StripHashBang`). */
  datatype Source = Source(filename: string, tree: Node)

  datatype ScanError =
    | MissingDefaultContext   // `msgs[""]` is undefined, so `msgs[""][key]` throws

  // ---------------------------------------------------------------------------
  // Leading hash-bang line

  /** Index of the first line terminator, or the length when there is none. */
  function FirstLineEnd(s: string): (k: nat)
    ensures k <= |s|
    ensures forall i :: 0 <= i < k ==> !IsLineTerminator(s[i])
    ensures k < |s| ==> IsLineTerminator(s[k])
  {
    if |s| == 0 || IsLineTerminator(s[0]) then 0 else 1 + FirstLineEnd(s[1..])
  }

  /** `source.replace(/^#.*\/, '')`: a first line starting with `#` is emptied
      up to, not including, its line terminator; any other text is kept. */
  function StripHashBang(s: string): (r: string)
    ensures |r| <= |s| && r == s[|s| - |r|..]
    ensures forall i :: 0 <= i < |s| - |r| ==> !IsLineTerminator(s[i])
    ensures (|s| == 0 || s[0] != '#') ==> r == s
    ensures |s| > 0 && s[0] == '#' ==> |r| == 0 || IsLineTerminator(r[0])
  {
    if |s| > 0 && s[0] == '#' then s[FirstLineEnd(s)..] else s
  }

  /** Stripping keeps every line terminator, so every later line keeps its
      line number. */
  lemma StripHashBangKeepsLines(s: string, c: char)
    requires IsLineTerminator(c)
    ensures Count(StripHashBang(s), c) == Count(s, c)
  {
    var r := StripHashBang(s);
    var k := |s| - |r|;
    assert s == s[..k] + r;
    CountAppend(s[..k], r, c);
    assert c !in s[..k] by {
      forall i | 0 <= i < k ensures s[..k][i] != c {
        assert !IsLineTerminator(s[i]);
      }
    }
    CountAbsent(s[..k], c);
  }

  // ---------------------------------------------------------------------------
  // Ordered lists without repetition

  predicate NoDup(xs: seq<string>) {
    forall i, j :: 0 <= i < j < |xs| ==> xs[i] != xs[j]
  }

  /** `ys.forEach(y => { if (!~xs.indexOf(y)) xs.push(y) })`. */
  function AppendAbsent(xs: seq<string>, ys: seq<string>): (r: seq<string>)
    ensures |xs| <= |r| && r[..|xs|] == xs
    ensures forall y :: y in r <==> y in xs || y in ys
    ensures forall i :: |xs| <= i < |r| ==> r[i] !in xs
    decreases |ys|
  {
    if |ys| == 0 then xs
    else
      var xs' := if ys[0] in xs then xs else xs + [ys[0]];
      var r := AppendAbsent(xs', ys[1..]);
      assert r[..|xs|] == xs by {
        assert r[..|xs|] == r[..|xs'|][..|xs|];
      }
      assert forall y :: y in r <==> y in xs || y in ys by {
        assert ys == [ys[0]] + ys[1..];
      }
      assert forall i :: |xs| <= i < |r| ==> r[i] !in xs by {
        forall i | |xs| <= i < |r| ensures r[i] !in xs {
          if i < |xs'| {
            assert r[i] == r[..|xs'|][i];
          }
        }
      }
      r
  }

  /** Each value of `ys` missing from `xs` ends up listed exactly once; the
      count of every other value is the one it had in `xs`. */
  lemma {:induction false} AppendAbsentCount(xs: seq<string>, ys: seq<string>)
    ensures forall z :: multiset(AppendAbsent(xs, ys))[z] == if z in xs || z !in ys then multiset(xs)[z] else 1
    decreases |ys|
  {
    if |ys| > 0 {
      var y := ys[0];
      var xs' := if y in xs then xs else xs + [y];
      AppendAbsentCount(xs', ys[1..]);
      var r := AppendAbsent(xs', ys[1..]);
      assert AppendAbsent(xs, ys) == r;
      assert ys == [y] + ys[1..];
      if y !in xs {
        assert multiset(xs') == multiset(xs) + multiset{y};
      }
      forall z ensures multiset(r)[z] == if z in xs || z !in ys then multiset(xs)[z] else 1 {
        assert z in ys <==> z == y || z in ys[1..];
      }
    }
  }

  /** Appending keeps a list free of repetitions. */
  lemma {:induction false} AppendAbsentNoDup(xs: seq<string>, ys: seq<string>)
    ensures NoDup(xs) ==> NoDup(AppendAbsent(xs, ys))
    decreases |ys|
  {
    if |ys| > 0 {
      var y := ys[0];
      var xs' := if y in xs then xs else xs + [y];
      AppendAbsentNoDup(xs', ys[1..]);
      if NoDup(xs) && y !in xs {
        assert NoDup(xs') by {
          forall i, j | 0 <= i < j < |xs'| ensures xs'[i] != xs'[j] {
            if j == |xs| {
              assert xs[i] in xs;
            }
          }
        }
      }
    }
  }

  /** Appending only what is already present changes nothing. */
  lemma {:induction false} AppendAbsentPresent(xs: seq<string>, ys: seq<string>)
    requires forall y :: y in ys ==> y in xs
    ensures AppendAbsent(xs, ys) == xs
  {
    if |ys| > 0 {
      assert ys[0] in xs;
      AppendAbsentPresent(xs, ys[1..]);
    }
  }

  // ---------------------------------------------------------------------------
  // add-comments

  /** `options['add-comments']` is truthy. */
  predicate CommentsEnabled(a: AddComments) {
    match a
    case Unset => false
    case Flag(on) => on
    case Tag(t) => t != ""
  }

  /** The value a leading comment contributes: with a non-empty tag, a comment
      containing the tag loses its first character and is trimmed; with `true`,
      every comment is trimmed; otherwise nothing. */
  function CommentValue(a: AddComments, value: string): (r: Option<string>)
    ensures a.Tag? && a.tag != "" ==> (r.Some? <==> Contains(value, a.tag))
    ensures a.Tag? && r.Some? ==> |value| >= 1 && r.value == Trim(value[1..])
    ensures a == Flag(true) ==> r == Some(Trim(value))
    ensures !CommentsEnabled(a) ==> r.None?
  {
    match a
    case Tag(t) =>
      if |t| > 0 && Contains(value, t) then
        assert At(value, t, IndexOf(value, t, 0));
        Some(Trim(value[1..]))
      else None
    case Flag(on) => if on then Some(Trim(value)) else None
    case Unset => None
  }

  /** The non-empty comment values of a list of leading comments, in order. */
  function Candidates(a: AddComments, comments: seq<string>): (r: seq<string>)
    ensures forall i :: 0 <= i < |r| ==> r[i] != ""
    ensures !CommentsEnabled(a) ==> r == []
  {
    if |comments| == 0 then []
    else
      var v := CommentValue(a, comments[0]);
      var rest := Candidates(a, comments[1..]);
      if v.Some? && v.value != "" then [v.value] + rest else rest
  }

  /** Some leading comment of the list yields value `v`. */
  predicate Yields(a: AddComments, comments: seq<string>, v: string) {
    exists i :: 0 <= i < |comments| && CommentValue(a, comments[i]) == Some(v)
  }

  lemma YieldsCons(a: AddComments, comments: seq<string>, v: string)
    requires |comments| > 0
    ensures Yields(a, comments, v) <==>
      CommentValue(a, comments[0]) == Some(v) || Yields(a, comments[1..], v)
  {
    if Yields(a, comments, v) {
      var i :| 0 <= i < |comments| && CommentValue(a, comments[i]) == Some(v);
      if i > 0 {
        assert comments[1..][i - 1] == comments[i];
      }
    }
    if Yields(a, comments[1..], v) {
      var j :| 0 <= j < |comments[1..]| && CommentValue(a, comments[1..][j]) == Some(v);
      assert comments[j + 1] == comments[1..][j];
    }
  }

  /** A value is a candidate exactly when some leading comment yields it and it
      is not empty. */
  lemma {:induction false} CandidatesMembers(a: AddComments, comments: seq<string>, v: string)
    ensures v in Candidates(a, comments) <==> v != "" && Yields(a, comments, v)
  {
    if |comments| > 0 {
      CandidatesMembers(a, comments[1..], v);
      YieldsCons(a, comments, v);
    }
  }

  // ---------------------------------------------------------------------------
  // Merging one hit into its entry

  /** `filename + ':' + line`. */
  function Reference(filename: string, line: nat): string {
    filename + ":" + NatToString(line)
  }

  /** The reference list of an existing entry: its `comments.reference` split
      on spaces when that is a non-empty string, else empty. */
  function ExistingReferences(e: Option<Entry>): seq<string> {
    if e.Some? && e.value.comments.Some? && e.value.comments.value.reference.Some?
       && e.value.comments.value.reference.value != ""
    then Split(e.value.comments.value.reference.value, ' ')
    else []
  }

  /** The translator lines of an existing entry: its `comments.translator`
      split on newlines when that is a non-empty string, else empty. */
  function ExistingTranslator(e: Option<Entry>): seq<string> {
    if e.Some? && e.value.comments.Some? && e.value.comments.value.translator.Some?
       && e.value.comments.value.translator.value != ""
    then Split(e.value.comments.value.translator.value, '\n')
    else []
  }

  /** `_.merge({msgctxt: "", msgid: key, msgstr: ""}, existing)`: the fresh
      skeleton with every property the existing entry defines taking over. */
  function MergedBase(e: Option<Entry>, key: string): (r: Entry)
    ensures e.None? ==> r == Entry(Some(""), Some(key), Some(Single("")), None, map[])
    ensures e.Some? ==> r.comments == e.value.comments && r.others == e.value.others
    ensures e.Some? && e.value.msgstr.Some? ==> r.msgstr == e.value.msgstr
    ensures e.Some? && e.value.msgid.Some? ==> r.msgid == e.value.msgid
    ensures e.Some? && e.value.msgctxt.Some? ==> r.msgctxt == e.value.msgctxt
    ensures r.msgctxt.Some? && r.msgid.Some? && r.msgstr.Some?
  {
    match e
    case None => Entry(Some(""), Some(key), Some(Single("")), None, map[])
    case Some(x) =>
      Entry(Some(x.msgctxt.GetOr("")), Some(x.msgid.GetOr(key)), Some(x.msgstr.GetOr(Single(""))), x.comments, x.others)
  }

  /** The translator lines after a hit: the existing lines, then each new
      non-empty comment value not yet listed; unchanged when `add-comments` is
      off. */
  function TranslatorLines(e: Option<Entry>, a: AddComments, comments: seq<string>): (r: seq<string>)
    ensures |ExistingTranslator(e)| <= |r| && r[..|ExistingTranslator(e)|] == ExistingTranslator(e)
    ensures forall i :: |ExistingTranslator(e)| <= i < |r| ==>
      r[i] != "" && r[i] !in ExistingTranslator(e) && r[i] in Candidates(a, comments)
    ensures CommentsEnabled(a) ==> forall v :: v in Candidates(a, comments) ==> v in r
    ensures !CommentsEnabled(a) ==> r == ExistingTranslator(e)
    ensures NoDup(ExistingTranslator(e)) ==> NoDup(r)
  {
    var prev := ExistingTranslator(e);
    if CommentsEnabled(a) then
      var r := AppendAbsent(prev, Candidates(a, comments));
      AppendAbsentNoDup(prev, Candidates(a, comments));
      assert forall i :: |prev| <= i < |r| ==> r[i] in r;
      r
    else prev
  }

  /** The entry stored for a hit: the merged base with its reference list and
      translator lines rewritten. */
  function MergeEntry(e: Option<Entry>, key: string, reference: string, a: AddComments, comments: seq<string>): (r: Entry)
    ensures e.None? ==> r.msgctxt == Some("") && r.msgid == Some(key) && r.msgstr == Some(Single(""))
    ensures e.Some? ==> r.others == e.value.others
    ensures e.Some? && e.value.msgstr.Some? ==> r.msgstr == e.value.msgstr
    ensures e.Some? && e.value.msgid.Some? ==> r.msgid == e.value.msgid
    ensures e.Some? && e.value.msgctxt.Some? ==> r.msgctxt == e.value.msgctxt
    ensures r.msgctxt.Some? && r.msgid.Some? && r.msgstr.Some? && r.comments.Some?
    ensures e.Some? && e.value.comments.Some? ==> r.comments.value.others == e.value.comments.value.others
    ensures r.comments.value.reference.Some?
    ensures |TranslatorLines(e, a, comments)| == 0 ==>
      r.comments.value.translator == (if e.Some? && e.value.comments.Some? then e.value.comments.value.translator else None)
  {
    var base := MergedBase(e, key);
    var c := base.comments.GetOr(Comments(None, None, map[]));
    var refs := AppendAbsent(ExistingReferences(e), [reference]);
    var lines := TranslatorLines(e, a, comments);
    var translator := if |lines| > 0 then Some(Join(lines, "\n")) else c.translator;
    base.(comments := Some(c.(reference := Some(Join(refs, " ")), translator := translator)))
  }

  /** The body of the scanner's visitor for one hit of file `filename`:
      `msgs[""][key] = message`. */
  function MergeHit(bucket: Bucket, filename: string, h: Hit, a: AddComments): (r: Bucket)
    ensures Get(r, h.msgid) == Some(MergeEntry(Get(bucket, h.msgid), h.msgid, Reference(filename, h.line), a, h.comments))
    ensures forall k :: k != h.msgid ==> Get(r, k) == Get(bucket, k)
    ensures h.msgid in Keys(bucket) ==> Keys(r) == Keys(bucket)
    ensures h.msgid !in Keys(bucket) ==> Keys(r) == Keys(bucket) + [h.msgid]
  {
    var e := Get(bucket, h.msgid);
    Set(bucket, h.msgid, MergeEntry(e, h.msgid, Reference(filename, h.line), a, h.comments))
  }

  lemma NoSpaceInReference(f: string, line: nat)
    requires ' ' !in f
    ensures ' ' !in Reference(f, line) && Reference(f, line) != ""
  {
    assert ' ' !in ":" + NatToString(line);
  }

  /** A non-empty string never splits into the single empty piece. */
  lemma SplitNonEmpty(t: string, c: char)
    requires t != ""
    ensures Split(t, c) != [""]
  {
    JoinSplit(t, c);
  }

  /** Separator-free pieces other than the lone empty piece join into a
      non-empty string that splits back into them. */
  lemma JoinReadsBack(parts: seq<string>, c: char)
    requires |parts| >= 1 && parts != [""]
    requires forall i :: 0 <= i < |parts| ==> c !in parts[i]
    ensures Join(parts, [c]) != "" && Split(Join(parts, [c]), c) == parts
  {
    SplitJoin(parts, c);
  }

  /** The reference list of a merged entry reads back, through `split`, as
      the existing list with the new reference appended when absent. */
  lemma MergedReferences(e: Option<Entry>, key: string, ref: string, a: AddComments, comments: seq<string>)
    requires ' ' !in ref && ref != ""
    ensures ExistingReferences(Some(MergeEntry(e, key, ref, a, comments))) == AppendAbsent(ExistingReferences(e), [ref])
  {
    var prevRefs := ExistingReferences(e);
    var refs := AppendAbsent(prevRefs, [ref]);
    assert ref in refs;
    forall i | 0 <= i < |refs| ensures ' ' !in refs[i] {
      assert refs[i] in refs;
      if refs[i] in prevRefs {
        var j :| 0 <= j < |prevRefs| && prevRefs[j] == refs[i];
      }
    }
    if |prevRefs| > 0 {
      SplitNonEmpty(e.value.comments.value.reference.value, ' ');
      assert refs != [""] by {
        if |refs| == 1 {
          assert refs == prevRefs;
        }
      }
    }
    JoinReadsBack(refs, ' ');
    var m := MergeEntry(e, key, ref, a, comments);
    assert m.comments.value.reference == Some(Join(refs, " "));
  }

  /** The translator comment of a merged entry reads back, through `split`,
      as the existing lines with the new comment values appended when
      absent. */
  lemma MergedTranslator(e: Option<Entry>, key: string, ref: string, a: AddComments, comments: seq<string>)
    requires forall v :: v in Candidates(a, comments) ==> '\n' !in v
    ensures ExistingTranslator(Some(MergeEntry(e, key, ref, a, comments))) == TranslatorLines(e, a, comments)
  {
    var prevLines := ExistingTranslator(e);
    var lines := TranslatorLines(e, a, comments);
    if |lines| > 0 {
      forall i | 0 <= i < |lines| ensures '\n' !in lines[i] {
        if i < |prevLines| {
          assert lines[i] == prevLines[i];
        }
      }
      if |prevLines| > 0 {
        SplitNonEmpty(e.value.comments.value.translator.value, '\n');
      }
      assert lines != [""] by {
        if |lines| == 1 && |prevLines| == 1 {
          assert lines == prevLines;
        } else if |lines| == 1 {
          assert lines[0] != "";
        }
      }
      JoinReadsBack(lines, '\n');
      var m := MergeEntry(e, key, ref, a, comments);
      assert m.comments.value.translator == Some(Join(lines, "\n"));
    }
  }

  /** Both lists of a merged entry read back as the lists the merge joined. */
  lemma MergeEntryLists(e: Option<Entry>, key: string, ref: string, a: AddComments, comments: seq<string>)
    requires ' ' !in ref && ref != ""
    requires forall v :: v in Candidates(a, comments) ==> '\n' !in v
    ensures var m := Some(MergeEntry(e, key, ref, a, comments));
      && ExistingReferences(m) == AppendAbsent(ExistingReferences(e), [ref])
      && ExistingTranslator(m) == TranslatorLines(e, a, comments)
  {
    MergedReferences(e, key, ref, a, comments);
    MergedTranslator(e, key, ref, a, comments);
  }

  /** After a hit, its reference appears in the entry's reference list exactly
      once if it appeared at most once before; earlier references keep their
      order. */
  lemma ReferenceListedOnce(bucket: Bucket, filename: string, h: Hit, a: AddComments)
    requires ' ' !in filename
    requires multiset(ExistingReferences(Get(bucket, h.msgid)))[Reference(filename, h.line)] <= 1
    ensures var refs := ExistingReferences(Get(MergeHit(bucket, filename, h, a), h.msgid));
      var prev := ExistingReferences(Get(bucket, h.msgid));
      && multiset(refs)[Reference(filename, h.line)] == 1
      && |prev| <= |refs| && refs[..|prev|] == prev
      && forall i :: |prev| <= i < |refs| ==> refs[i] == Reference(filename, h.line)
  {
    var ref := Reference(filename, h.line);
    NoSpaceInReference(filename, h.line);
    MergedReferenceOnce(Get(bucket, h.msgid), h.msgid, ref, a, h.comments);
  }

  /** `ReferenceListedOnce` for the entry the hit merges into. */
  lemma MergedReferenceOnce(e: Option<Entry>, key: string, ref: string, a: AddComments, comments: seq<string>)
    requires ' ' !in ref && ref != ""
    requires multiset(ExistingReferences(e))[ref] <= 1
    ensures var refs := ExistingReferences(Some(MergeEntry(e, key, ref, a, comments)));
      var prev := ExistingReferences(e);
      && multiset(refs)[ref] == 1
      && |prev| <= |refs| && refs[..|prev|] == prev
      && forall i :: |prev| <= i < |refs| ==> refs[i] == ref
  {
    MergedReferences(e, key, ref, a, comments);
    AppendOnce(ExistingReferences(e), ref, ExistingReferences(Some(MergeEntry(e, key, ref, a, comments))));
  }

  /** Appending a value listed at most once leaves it listed exactly once,
      after the values already there. */
  lemma AppendOnce(prev: seq<string>, ref: string, refs: seq<string>)
    requires multiset(prev)[ref] <= 1
    requires refs == AppendAbsent(prev, [ref])
    ensures && multiset(refs)[ref] == 1
      && |prev| <= |refs| && refs[..|prev|] == prev
      && forall i :: |prev| <= i < |refs| ==> refs[i] == ref
  {
    if ref in prev {
      assert multiset(prev)[ref] >= 1;
    }
    AppendAbsentCount(prev, [ref]);
    forall i | |prev| <= i < |refs| ensures refs[i] == ref {
      assert refs[i] in refs;
    }
  }

  /** With `add-comments` on, every new non-empty comment value is listed once
      among the translator lines after a hit, after the lines already there. */
  lemma TranslatorCommentsListed(bucket: Bucket, filename: string, h: Hit, a: AddComments)
    requires forall v :: v in Candidates(a, h.comments) ==> '\n' !in v
    requires CommentsEnabled(a)
    ensures var lines := ExistingTranslator(Get(MergeHit(bucket, filename, h, a), h.msgid));
      var prev := ExistingTranslator(Get(bucket, h.msgid));
      && |prev| <= |lines| && lines[..|prev|] == prev
      && (forall i :: 0 <= i < |h.comments| && CommentValue(a, h.comments[i]).Some? && CommentValue(a, h.comments[i]).value != "" ==>
            CommentValue(a, h.comments[i]).value in lines)
      && (NoDup(prev) ==> NoDup(lines))
  {
    MergedTranslator(Get(bucket, h.msgid), h.msgid, Reference(filename, h.line), a, h.comments);
    forall i | 0 <= i < |h.comments| && CommentValue(a, h.comments[i]).Some? && CommentValue(a, h.comments[i]).value != ""
      ensures CommentValue(a, h.comments[i]).value in Candidates(a, h.comments)
    {
      CandidatesMembers(a, h.comments, CommentValue(a, h.comments[i]).value);
    }
  }

  // ---------------------------------------------------------------------------
  // Scanning all sources

  /** The hits of every source, in source order, each with its file name. */
  function AllHits(sources: seq<Source>, keyword: Option<string>): seq<(string, Hit)> {
    if |sources| == 0 then []
    else
      var hs := Hits(sources[0].tree, [], keyword);
      seq(|hs|, i requires 0 <= i < |hs| => (sources[0].filename, hs[i])) + AllHits(sources[1..], keyword)
  }

  /** The message ids of a sequence of hits. */
  function HitKeys(hs: seq<(string, Hit)>): (ks: seq<string>)
    ensures |ks| == |hs| && forall i :: 0 <= i < |hs| ==> ks[i] == hs[i].1.msgid
  {
    if |hs| == 0 then [] else [hs[0].1.msgid] + HitKeys(hs[1..])
  }

  /** Merging a sequence of hits in order. */
  function FoldHits(bucket: Bucket, hs: seq<(string, Hit)>, a: AddComments): Bucket
    decreases |hs|
  {
    if |hs| == 0 then bucket else FoldHits(MergeHit(bucket, hs[0].0, hs[0].1, a), hs[1..], a)
  }

  /** After merging, keys no hit names keep their entry, and every key a hit
      names has one. */
  lemma {:induction false} FoldHitsGet(bucket: Bucket, hs: seq<(string, Hit)>, a: AddComments)
    ensures forall k :: k !in HitKeys(hs) ==> Get(FoldHits(bucket, hs, a), k) == Get(bucket, k)
    ensures forall k :: k in HitKeys(hs) ==> Get(FoldHits(bucket, hs, a), k).Some?
    decreases |hs|
  {
    if |hs| > 0 {
      var b := MergeHit(bucket, hs[0].0, hs[0].1, a);
      FoldHitsGet(b, hs[1..], a);
      assert HitKeys(hs) == [hs[0].1.msgid] + HitKeys(hs[1..]);
    }
  }

  /** The exported scanner: every hit of every source is merged into the
      default context. A hit with no default context throws, aborting the
      scan; without hits the translations are returned untouched. */
  function ScanSources(sources: seq<Source>, translations: Translations, opts: ScanOptions): (r: Result<Translations, ScanError>)
    ensures |AllHits(sources, opts.keyword)| == 0 ==> r == Ok(translations)
    ensures r.Err? <==> |AllHits(sources, opts.keyword)| > 0 && "" !in Keys(translations)
    ensures r.Ok? ==> Keys(r.value) == Keys(translations)
    ensures r.Ok? ==> forall c :: c != "" ==> Get(r.value, c) == Get(translations, c)
    ensures r.Ok? && "" in Keys(translations) ==>
      Get(r.value, "") == Some(FoldHits(Get(translations, "").value, AllHits(sources, opts.keyword), opts.addComments))
  {
    var hs := AllHits(sources, opts.keyword);
    if |hs| == 0 then Ok(translations)
    else
      match Get(translations, "")
      case None => Err(MissingDefaultContext)
      case Some(bucket) => Ok(Set(translations, "", FoldHits(bucket, hs, opts.addComments)))
  }

  // ---------------------------------------------------------------------------
  // Idempotence: merging the same hits again changes nothing

  /** A file name without spaces and comment values without newlines: the
      reference and translator lists then survive the join/split round trip. */
  predicate SplittableHit(f: string, h: Hit, a: AddComments) {
    && ' ' !in f
    && forall v :: v in Candidates(a, h.comments) ==> '\n' !in v
  }

  predicate Splittable(hs: seq<(string, Hit)>, a: AddComments) {
    forall i :: 0 <= i < |hs| ==> SplittableHit(hs[i].0, hs[i].1, a)
  }

  /** The bucket already records hit `h` of file `f`: its entry is complete,
      lists the reference, and lists every comment the hit would add. */
  predicate Absorbed(bucket: Bucket, f: string, h: Hit, a: AddComments) {
    match Get(bucket, h.msgid)
    case None => false
    case Some(x) =>
      && x.msgctxt.Some? && x.msgid.Some? && x.msgstr.Some? && x.comments.Some?
      && Reference(f, h.line) in ExistingReferences(Some(x))
      && (CommentsEnabled(a) ==> forall v :: v in Candidates(a, h.comments) ==> v in ExistingTranslator(Some(x)))
  }

  /** Merging a hit the bucket already records is the identity. */
  lemma MergeAbsorbed(bucket: Bucket, f: string, h: Hit, a: AddComments)
    requires Absorbed(bucket, f, h, a)
    ensures MergeHit(bucket, f, h, a) == bucket
  {
    var e := Get(bucket, h.msgid);
    var x := e.value;
    var c := x.comments.value;
    var refs := ExistingReferences(e);
    AppendAbsentPresent(refs, [Reference(f, h.line)]);
    JoinSplit(c.reference.value, ' ');
    var lines := TranslatorLines(e, a, h.comments);
    if CommentsEnabled(a) {
      AppendAbsentPresent(ExistingTranslator(e), Candidates(a, h.comments));
    }
    assert lines == ExistingTranslator(e);
    if |lines| > 0 {
      JoinSplit(c.translator.value, '\n');
    }
    assert MergeEntry(e, h.msgid, Reference(f, h.line), a, h.comments) == x;
    SetUnchanged(bucket, h.msgid, x);
  }

  /** Merging a hit records it. */
  lemma MergeRecords(bucket: Bucket, f: string, h: Hit, a: AddComments)
    requires SplittableHit(f, h, a)
    ensures Absorbed(MergeHit(bucket, f, h, a), f, h, a)
  {
    var ref := Reference(f, h.line);
    NoSpaceInReference(f, h.line);
    MergeEntryLists(Get(bucket, h.msgid), h.msgid, ref, a, h.comments);
  }

  /** Merging a hit keeps every hit already recorded recorded. */
  lemma MergedKeepsReference(e: Option<Entry>, key: string, ref: string, a: AddComments, comments: seq<string>, r0: string)
    requires ' ' !in ref && ref != ""
    requires r0 in ExistingReferences(e)
    ensures r0 in ExistingReferences(Some(MergeEntry(e, key, ref, a, comments)))
  {
    MergedReferences(e, key, ref, a, comments);
  }

  lemma MergedKeepsTranslator(e: Option<Entry>, key: string, ref: string, a: AddComments, comments: seq<string>, v: string)
    requires forall v :: v in Candidates(a, comments) ==> '\n' !in v
    requires v in ExistingTranslator(e)
    ensures v in ExistingTranslator(Some(MergeEntry(e, key, ref, a, comments)))
  {
    MergedTranslator(e, key, ref, a, comments);
    var prev := ExistingTranslator(e);
    var lines := TranslatorLines(e, a, comments);
    assert lines[..|prev|] == prev;
    var i :| 0 <= i < |prev| && prev[i] == v;
    assert lines[i] == v;
  }

  lemma MergeKeepsRecorded(bucket: Bucket, f: string, h: Hit, f': string, h': Hit, a: AddComments)
    requires SplittableHit(f, h, a)
    requires Absorbed(bucket, f', h', a)
    ensures Absorbed(MergeHit(bucket, f, h, a), f', h', a)
  {
    if h'.msgid == h.msgid {
      var e := Get(bucket, h.msgid);
      var ref := Reference(f, h.line);
      var m := Some(MergeEntry(e, h.msgid, ref, a, h.comments));
      NoSpaceInReference(f, h.line);
      MergedKeepsReference(e, h.msgid, ref, a, h.comments, Reference(f', h'.line));
      if CommentsEnabled(a) {
        forall v | v in Candidates(a, h'.comments) ensures v in ExistingTranslator(m) {
          MergedKeepsTranslator(e, h.msgid, ref, a, h.comments, v);
        }
      }
    }
  }

  lemma {:induction false} FoldKeepsRecorded(bucket: Bucket, hs: seq<(string, Hit)>, f': string, h': Hit, a: AddComments)
    requires Splittable(hs, a)
    requires Absorbed(bucket, f', h', a)
    ensures Absorbed(FoldHits(bucket, hs, a), f', h', a)
    decreases |hs|
  {
    if |hs| > 0 {
      var b := MergeHit(bucket, hs[0].0, hs[0].1, a);
      SplittableTail(hs, a);
      MergeKeepsRecorded(bucket, hs[0].0, hs[0].1, f', h', a);
      FoldKeepsRecorded(b, hs[1..], f', h', a);
      FoldHitsStep(bucket, hs, a);
    }
  }

  /** Every hit of a sequence is recorded once the sequence is merged. */
  lemma FoldRecordsAll(bucket: Bucket, hs: seq<(string, Hit)>, a: AddComments)
    requires Splittable(hs, a)
    ensures forall i :: 0 <= i < |hs| ==> Absorbed(FoldHits(bucket, hs, a), hs[i].0, hs[i].1, a)
  {
    forall i | 0 <= i < |hs| ensures Absorbed(FoldHits(bucket, hs, a), hs[i].0, hs[i].1, a) {
      FoldRecordsOne(bucket, hs, a, i, hs[i].0, hs[i].1);
    }
  }

  lemma FoldRecordsOne(bucket: Bucket, hs: seq<(string, Hit)>, a: AddComments, i: nat, f: string, h: Hit)
    requires Splittable(hs, a) && i < |hs| && hs[i] == (f, h)
    ensures Absorbed(FoldHits(bucket, hs, a), f, h, a)
  {
    var mid := FoldSplit(bucket, hs, a, i);
    SplittableSuffix(hs, a, i);
    FoldRecordsFirst(mid, hs[i..], a, f, h);
  }

  /** The first hit of a sequence is recorded once the sequence is merged. */
  lemma FoldRecordsFirst(bucket: Bucket, hs: seq<(string, Hit)>, a: AddComments, f: string, h: Hit)
    requires Splittable(hs, a) && |hs| > 0 && hs[0] == (f, h)
    ensures Absorbed(FoldHits(bucket, hs, a), f, h, a)
  {
    SplittableTail(hs, a);
    var b := MergeHit(bucket, f, h, a);
    FoldHitsStep(bucket, hs, a);
    MergeRecords(bucket, f, h, a);
    FoldKeepsRecorded(b, hs[1..], f, h, a);
  }

  /** Merging `hs` is merging its first `i` hits, then the rest. */
  lemma {:induction false} FoldSplit(bucket: Bucket, hs: seq<(string, Hit)>, a: AddComments, i: nat) returns (mid: Bucket)
    requires i <= |hs|
    ensures FoldHits(bucket, hs, a) == FoldHits(mid, hs[i..], a)
    ensures mid == FoldHits(bucket, hs[..i], a)
    decreases i
  {
    if i == 0 {
      mid := bucket;
    } else {
      var tail, j := hs[1..], i - 1;
      assert tail[j..] == hs[i..];
      assert hs[..i][1..] == tail[..j];
      assert hs[..i][0] == hs[0];
      var b := MergeHit(bucket, hs[0].0, hs[0].1, a);
      FoldHitsStep(bucket, hs, a);
      FoldHitsStep(bucket, hs[..i], a);
      mid := FoldSplit(b, tail, a, j);
    }
  }

  lemma SplittableSuffix(hs: seq<(string, Hit)>, a: AddComments, i: nat)
    requires Splittable(hs, a) && i <= |hs|
    ensures Splittable(hs[i..], a)
  {
    forall j | 0 <= j < |hs| - i ensures SplittableHit(hs[i..][j].0, hs[i..][j].1, a) {
      assert hs[i..][j] == hs[i + j];
    }
  }

  lemma SplittableTail(hs: seq<(string, Hit)>, a: AddComments)
    requires Splittable(hs, a) && |hs| > 0
    ensures SplittableHit(hs[0].0, hs[0].1, a) && Splittable(hs[1..], a)
  {
    forall j | 0 <= j < |hs| - 1 ensures SplittableHit(hs[1..][j].0, hs[1..][j].1, a) {
      assert hs[1..][j] == hs[j + 1];
    }
  }

  lemma FoldHitsStep(bucket: Bucket, hs: seq<(string, Hit)>, a: AddComments)
    requires |hs| > 0
    ensures FoldHits(bucket, hs, a) == FoldHits(MergeHit(bucket, hs[0].0, hs[0].1, a), hs[1..], a)
  {
  }

  lemma {:induction false} FoldAbsorbed(bucket: Bucket, hs: seq<(string, Hit)>, a: AddComments)
    requires forall i :: 0 <= i < |hs| ==> Absorbed(bucket, hs[i].0, hs[i].1, a)
    ensures FoldHits(bucket, hs, a) == bucket
  {
    if |hs| > 0 {
      MergeAbsorbed(bucket, hs[0].0, hs[0].1, a);
      forall i | 0 <= i < |hs[1..]| ensures Absorbed(bucket, hs[1..][i].0, hs[1..][i].1, a) {
        assert hs[1..][i] == hs[i + 1];
      }
      FoldAbsorbed(bucket, hs[1..], a);
    }
  }

  /** Merging the same hits a second time leaves the entries as they are:
      re-running extraction over unchanged sources adds no reference or
      comment twice. */
  lemma FoldIdempotent(bucket: Bucket, hs: seq<(string, Hit)>, a: AddComments)
    requires Splittable(hs, a)
    ensures FoldHits(FoldHits(bucket, hs, a), hs, a) == FoldHits(bucket, hs, a)
  {
    FoldRecordsAll(bucket, hs, a);
    FoldAbsorbed(FoldHits(bucket, hs, a), hs, a);
  }

  /** A first hit of a message stores the hit's reference alone. */
  lemma FirstReference(bucket: Bucket, f: string, h: Hit, a: AddComments)
    requires h.msgid !in Keys(bucket) && ' ' !in f
    ensures ExistingReferences(Get(MergeHit(bucket, f, h, a), h.msgid)) == [Reference(f, h.line)]
  {
    var r1 := Reference(f, h.line);
    NoSpaceInReference(f, h.line);
    assert AppendAbsent([], [r1]) == [r1];
    var e1 := MergeEntry(None, h.msgid, r1, a, h.comments);
    assert e1.comments.value.reference == Some(r1);
    SplitPlain(r1, ' ');
  }

  /** A further reference is appended after a single different one, separated
      by a space. */
  lemma SecondReference(e: Entry, r1: string, key: string, r2: string, a: AddComments, comments: seq<string>)
    requires ExistingReferences(Some(e)) == [r1] && r1 != r2
    ensures var m := MergeEntry(Some(e), key, r2, a, comments);
      m.comments.Some? && m.comments.value.reference == Some(r1 + " " + r2)
  {
    assert AppendAbsent([r1], [r2]) == [r1, r2] by {
      assert r2 !in [r1];
      assert [r2][1..] == [];
      assert AppendAbsent([r1], [r2]) == AppendAbsent([r1, r2], []);
    }
    assert Join([r1, r2], " ") == r1 + " " + r2 by {
      assert [r1, r2][1..] == [r2];
    }
  }

  /** The same message at `a.js:3` and then `b.js:7` gives one entry whose
      reference comment is `a.js:3 b.js:7`. */
  lemma CrossFileReferences(bucket: Bucket, f1: string, h1: Hit, f2: string, h2: Hit, a: AddComments)
    requires h1.msgid == h2.msgid && h1.msgid !in Keys(bucket)
    requires ' ' !in f1
    requires Reference(f1, h1.line) != Reference(f2, h2.line)
    ensures var e := Get(FoldHits(bucket, [(f1, h1), (f2, h2)], a), h1.msgid);
      && e.Some? && e.value.comments.Some?
      && e.value.comments.value.reference == Some(Reference(f1, h1.line) + " " + Reference(f2, h2.line))
  {
    var r1, r2 := Reference(f1, h1.line), Reference(f2, h2.line);
    var b1 := MergeHit(bucket, f1, h1, a);
    FirstReference(bucket, f1, h1, a);
    var e1 := Get(b1, h1.msgid).value;
    SecondReference(e1, r1, h2.msgid, r2, a, h2.comments);
    FoldTwo(bucket, (f1, h1), (f2, h2), a);
  }

  /** Merging two hits is merging the first, then the second. */
  lemma FoldTwo(bucket: Bucket, x: (string, Hit), y: (string, Hit), a: AddComments)
    ensures FoldHits(bucket, [x, y], a) == MergeHit(MergeHit(bucket, x.0, x.1, a), y.0, y.1, a)
  {
    var hs := [x, y];
    assert hs[1..] == [y];
    assert [y][1..] == [];
    var b1 := MergeHit(bucket, x.0, x.1, a);
    assert FoldHits(bucket, hs, a) == FoldHits(b1, [y], a);
  }

  /** Outside `SplittableHit`: a translator comment that keeps a newline after
      trimming is appended again on every repeated hit, because the stored
      comment reads back as its lines and not as itself. */
  lemma RepeatedMultiLineCommentAsWritten(bucket: Bucket, f: string, h: Hit)
    requires Get(bucket, h.msgid).None?
    requires |h.comments| == 1 && '\n' in Trim(h.comments[0])
    ensures var w := Trim(h.comments[0]);
      var b1 := MergeHit(bucket, f, h, Flag(true));
      var b2 := MergeHit(b1, f, h, Flag(true));
      && Get(b1, h.msgid).Some? && Get(b2, h.msgid).Some?
      && Get(b1, h.msgid).value.comments.value.translator == Some(w)
      && Get(b2, h.msgid).value.comments.value.translator == Some(w + "\n" + w)
  {
    var w := Trim(h.comments[0]);
    assert h.comments[1..] == [];
    assert Candidates(Flag(true), h.comments) == [w];
    var e1 := MergeEntry(None, h.msgid, Reference(f, h.line), Flag(true), h.comments);
    assert AppendAbsent([], [w]) == [w];
    assert e1.comments.value.translator == Some(w);
    TranslatorReadBack(e1, h.msgid, Reference(f, h.line), Flag(true), h.comments, w);
  }

  /** An entry whose stored translator comment `w` holds a newline gets `w`
      appended after its lines when `w` comes again. */
  lemma TranslatorReadBack(e: Entry, key: string, ref: string, a: AddComments, comments: seq<string>, w: string)
    requires CommentsEnabled(a) && Candidates(a, comments) == [w] && '\n' in w
    requires e.comments.Some? && e.comments.value.translator == Some(w)
    ensures MergeEntry(Some(e), key, ref, a, comments).comments.value.translator == Some(w + "\n" + w)
  {
    var parts := Split(w, '\n');
    assert ExistingTranslator(Some(e)) == parts;
    assert w !in parts;
    assert AppendAbsent(parts, [w]) == parts + [w];
    JoinSplit(w, '\n');
    JoinAppend(parts, w, "\n");
  }

  /** Outside `SplittableHit`: the reference of a file whose name holds a space
      is listed again on every repeated hit, because the stored reference
      reads back as several words. */
  lemma RepeatedSpacedFileNameAsWritten(bucket: Bucket, f: string, h: Hit, a: AddComments)
    requires Get(bucket, h.msgid).None?
    requires ' ' in f
    ensures var ref := Reference(f, h.line);
      var b1 := MergeHit(bucket, f, h, a);
      var b2 := MergeHit(b1, f, h, a);
      && Get(b1, h.msgid).Some? && Get(b2, h.msgid).Some?
      && Get(b1, h.msgid).value.comments.value.reference == Some(ref)
      && Get(b2, h.msgid).value.comments.value.reference == Some(ref + " " + ref)
  {
    var ref := Reference(f, h.line);
    assert ' ' in ref by { assert ref[..|f|] == f; }
    assert AppendAbsent([], [ref]) == [ref];
    var e1 := MergeEntry(None, h.msgid, ref, a, h.comments);
    assert e1.comments.value.reference == Some(ref);
    ReferenceReadBack(e1, h.msgid, ref, a, h.comments);
  }

  /** An entry whose stored reference `ref` holds a space gets `ref` appended
      after its words when `ref` comes again. */
  lemma ReferenceReadBack(e: Entry, key: string, ref: string, a: AddComments, comments: seq<string>)
    requires ' ' in ref
    requires e.comments.Some? && e.comments.value.reference == Some(ref)
    ensures MergeEntry(Some(e), key, ref, a, comments).comments.value.reference == Some(ref + " " + ref)
  {
    var parts := Split(ref, ' ');
    assert ExistingReferences(Some(e)) == parts;
    assert ref !in parts;
    assert AppendAbsent(parts, [ref]) == parts + [ref];
    JoinSplit(ref, ' ');
    JoinAppend(parts, ref, " ");
  }
}
