/** `parseJade` of `lib/jsxgettext.js`: the Jade front end. The template is
    lexed into tokens (the lexer is not part of this model: tokens are the
    input); every attribute, text or code token that contains gettext calls
    writes those calls, rebuilt by `extractGettext`, into the output line of
    the token's own line, so that the scanner reports Jade line numbers. */
module Jade {
  import opened Wrappers
  import opened Strings
  import opened JsObject

  /** A token value: a string, or anything else (`typeof` not `'string'`). */
  datatype JsVal = JsString(s: string) | NonString

  /** The tokens `parseJade` distinguishes, with their 1-based line. */
  datatype Token =
    | Attrs(line: int, attrs: Obj<JsVal>)
    | Text(line: int, val: JsVal)
    | Code(line: int, val: JsVal)
    | Eos(line: int)
    | Other(line: int)

  // ---------------------------------------------------------------------------
  // The regular expressions /gettext\("[^"]+"/ig and /gettext\('[^']+'/ig

  /** ASCII lower-casing, the only case folding a non-Unicode `i` pattern of
      ASCII letters sees. */
  function Lower(c: char): char {
    if 'A' <= c <= 'Z' then (c as int + 32) as char else c
  }

  /** `gettext(` occurs at `i`, letters compared without regard to case. */
  predicate GettextAt(s: string, i: nat) {
    var p := "gettext(";
    i + |p| <= |s| && forall k :: 0 <= k < |p| ==> Lower(s[i + k]) == Lower(p[k])
  }

  /** The pattern for quote `q` matches `s[i..j + 1]`: `gettext(`, the quote,
      one or more other characters, the quote at `j`. */
  predicate IsMatch(s: string, q: char, i: nat, j: nat) {
    && GettextAt(s, i)
    && i + 9 < j < |s|
    && s[i + 8] == q && s[j] == q
    && forall k :: i + 9 <= k < j ==> s[k] != q
  }

  /** The end of the match starting at `i`, if one does: the greedy
      `[^q]+` stops at the first quote, which must not be the very next
      character. */
  function MatchAt(s: string, q: char, i: nat): (r: Option<nat>)
    requires i <= |s|
    ensures r.Some? ==> i + 9 < r.value < |s|
  {
    if GettextAt(s, i) && i + 8 < |s| && s[i + 8] == q then
      var j := IndexOf(s, [q], i + 9);
      if j > i + 9 then Some(j) else None
    else None
  }

  /** `MatchAt` finds the one and only match starting at `i`. */
  lemma MatchAtIff(s: string, q: char, i: nat, j: nat)
    requires i <= |s|
    ensures IsMatch(s, q, i, j) <==> MatchAt(s, q, i) == Some(j)
  {
    if GettextAt(s, i) && i + 8 < |s| && s[i + 8] == q {
      var x := IndexOf(s, [q], i + 9);
      assert forall k :: i + 9 <= k < |s| && s[k] == q ==> At(s, [q], k) by {
        forall k | i + 9 <= k < |s| && s[k] == q ensures At(s, [q], k) {
          assert s[k..k + 1] == [q];
        }
      }
      assert forall k :: i + 9 <= k < |s| && At(s, [q], k) ==> s[k] == q by {
        forall k | i + 9 <= k < |s| && At(s, [q], k) ensures s[k] == q {
          assert s[k..k + 1][0] == s[k];
        }
      }
      if IsMatch(s, q, i, j) {
        assert At(s, [q], j);
        assert x != -1;
        assert i + 9 <= x <= j && At(s, [q], x);
        assert s[x] == q;
        assert x == j;
      }
    }
  }

  /** Where a match ends for each start position `0..|s|`, if one starts
      there: the per-position answers the global search consults. */
  function MatchTable(s: string, q: char): (t: seq<Option<nat>>)
    ensures |t| == |s| + 1 && Progressive(t)
  {
    TableUpTo(s, q, |s| + 1)
  }

  /** The first `n` entries of the table. */
  function TableUpTo(s: string, q: char, n: nat): (t: seq<Option<nat>>)
    requires n <= |s| + 1
    ensures |t| == n
    ensures forall a :: 0 <= a < n && t[a].Some? ==> a < t[a].value < |s|
  {
    if n == 0 then [] else TableUpTo(s, q, n - 1) + [MatchAt(s, q, n - 1)]
  }

  lemma {:induction false} TableUpToAt(s: string, q: char, n: nat, a: nat)
    requires a < n <= |s| + 1
    ensures TableUpTo(s, q, n)[a] == MatchAt(s, q, a)
    decreases n
  {
    if a < n - 1 {
      TableUpToAt(s, q, n - 1, a);
    }
  }

  /** Each entry of the table is the match found at its position. */
  lemma MatchTableAt(s: string, q: char, a: nat, b: nat)
    requires a <= |s|
    ensures MatchTable(s, q)[a] == Some(b) <==> IsMatch(s, q, a, b)
  {
    TableUpToAt(s, q, |s| + 1, a);
    MatchAtIff(s, q, a, b);
  }

  /** A match found at `a` ends strictly after `a` and before the last slot. */
  ghost predicate Progressive(t: seq<Option<nat>>) {
    forall a :: 0 <= a < |t| && t[a].Some? ==> a < t[a].value < |t| - 1
  }

  /** No entry of the table in `[lo, hi)` holds a match. */
  ghost predicate NoneIn(t: seq<Option<nat>>, lo: nat, hi: nat)
    decreases hi - lo
  {
    lo >= hi || lo >= |t| || (t[lo].None? && NoneIn(t, lo + 1, hi))
  }

  lemma {:induction false} NoneInAt(t: seq<Option<nat>>, lo: nat, hi: nat, a: nat)
    requires NoneIn(t, lo, hi) && lo <= a < hi && a < |t|
    ensures t[a].None?
    decreases a - lo
  {
    if a > lo {
      NoneInAt(t, lo + 1, hi, a);
    }
  }

  /** `r` is what a global search from `i` finds: no match up to the first
      pair, the first pair is a match, and the rest is what the search finds
      from just after its end (nothing at all when `r` is empty). */
  ghost predicate Chain(t: seq<Option<nat>>, i: nat, r: seq<(nat, nat)>)
    decreases |r|
  {
    if |r| == 0 then NoneIn(t, i, |t|)
    else
      && i <= r[0].0 < |t|
      && NoneIn(t, i, r[0].0)
      && t[r[0].0] == Some(r[0].1)
      && Chain(t, r[0].1 + 1, r[1..])
  }

  /** The global search over a table: left to right, each search resuming
      after the previous match. */
  function Scan(t: seq<Option<nat>>, i: nat): (r: seq<(nat, nat)>)
    requires Progressive(t) && i <= |t|
    ensures Chain(t, i, r)
    decreases |t| - i
  {
    if i == |t| then []
    else
      match t[i]
      case Some(j) =>
        var rest := Scan(t, j + 1);
        assert ([(i, j)] + rest)[1..] == rest;
        [(i, j)] + rest
      case None => Scan(t, i + 1)
  }

  /** The pairs of a search lie after its start and inside the table, each is
      a match recorded in the table, and each starts after the previous one
      ends. */
  lemma {:induction false} ChainFacts(t: seq<Option<nat>>, i: nat, r: seq<(nat, nat)>)
    requires Progressive(t) && Chain(t, i, r)
    ensures forall k :: 0 <= k < |r| ==> i <= r[k].0 < r[k].1 < |t| - 1 && t[r[k].0] == Some(r[k].1)
    ensures forall k, l :: 0 <= k < l < |r| ==> r[k].1 < r[l].0
    decreases |r|
  {
    if |r| > 0 {
      var rest := r[1..];
      ChainFacts(t, r[0].1 + 1, rest);
      assert forall k :: 0 < k < |r| ==> r[k] == rest[k - 1];
    }
  }

  /** No match starts after the last pair of a search. */
  lemma {:induction false} ChainLastGap(t: seq<Option<nat>>, i: nat, r: seq<(nat, nat)>)
    requires Chain(t, i, r) && |r| > 0
    ensures NoneIn(t, r[|r| - 1].1 + 1, |t|)
    decreases |r|
  {
    if |r| > 1 {
      ChainLastGap(t, r[0].1 + 1, r[1..]);
      assert r[1..][|r| - 2] == r[|r| - 1];
    }
  }

  /** No match starts between two consecutive pairs of a search. */
  lemma {:induction false} ChainInnerGap(t: seq<Option<nat>>, i: nat, r: seq<(nat, nat)>, k: nat)
    requires Chain(t, i, r) && k + 1 < |r|
    ensures NoneIn(t, r[k].1 + 1, r[k + 1].0)
    decreases k
  {
    var rest := r[1..];
    assert rest[k] == r[k + 1];
    if k > 0 {
      ChainInnerGap(t, r[0].1 + 1, rest, k - 1);
      assert rest[k - 1] == r[k];
    }
  }

  /** The positions of all matches at or after `i`, as a global regular
      expression finds them. */
  function Matches(s: string, q: char, i: nat): (r: seq<(nat, nat)>)
    requires i <= |s|
    ensures forall k :: 0 <= k < |r| ==> i <= r[k].0 < r[k].1 < |s|
    ensures forall k, l :: 0 <= k < l < |r| ==> r[k].1 < r[l].0
  {
    var t := MatchTable(s, q);
    ChainFacts(t, i, Scan(t, i));
    Scan(t, i)
  }

  /** An empty stretch of the table means no match of the pattern starts
      there. */
  lemma NoneInMeaning(s: string, q: char, lo: nat, hi: nat)
    requires NoneIn(MatchTable(s, q), lo, hi)
    ensures forall a, b :: lo <= a < hi ==> !IsMatch(s, q, a, b)
  {
    forall a, b | lo <= a < hi ensures !IsMatch(s, q, a, b) {
      if a <= |s| {
        NoneInAt(MatchTable(s, q), lo, hi, a);
        MatchTableAt(s, q, a, b);
      } else {
        NoMatchBeyond(s, q, a, b);
      }
    }
  }

  /** Every pair found is a match of the pattern. */
  lemma MatchesSound(s: string, q: char, i: nat)
    requires i <= |s|
    ensures var r := Matches(s, q, i);
      forall k :: 0 <= k < |r| ==> IsMatch(s, q, r[k].0, r[k].1)
  {
    var r := Matches(s, q, i);
    ChainFacts(MatchTable(s, q), i, r);
    forall k | 0 <= k < |r| ensures IsMatch(s, q, r[k].0, r[k].1) {
      MatchTableAt(s, q, r[k].0, r[k].1);
    }
  }

  /** No match starts from `i` up to the first one found, or at all from
      `i` on when none is found. */
  lemma MatchesBeforeFirst(s: string, q: char, i: nat)
    requires i <= |s|
    ensures var r := Matches(s, q, i);
      forall a, b :: i <= a && (|r| == 0 || a < r[0].0) ==> !IsMatch(s, q, a, b)
  {
    var r := Matches(s, q, i);
    NoneInMeaning(s, q, i, if |r| == 0 then |s| + 1 else r[0].0);
    forall a, b | |s| < a ensures !IsMatch(s, q, a, b) {
      NoMatchBeyond(s, q, a, b);
    }
  }

  /** No match starts strictly between two consecutive matches found. */
  lemma MatchesBetween(s: string, q: char, i: nat, k: nat)
    requires i <= |s|
    requires k + 1 < |Matches(s, q, i)|
    ensures var r := Matches(s, q, i);
      forall a, b :: r[k].1 < a < r[k + 1].0 ==> !IsMatch(s, q, a, b)
  {
    var r := Matches(s, q, i);
    ChainInnerGap(MatchTable(s, q), i, r, k);
    NoneInMeaning(s, q, r[k].1 + 1, r[k + 1].0);
  }

  /** No match starts after the last match found. */
  lemma MatchesAfterLast(s: string, q: char, i: nat)
    requires i <= |s|
    requires |Matches(s, q, i)| > 0
    ensures var r := Matches(s, q, i);
      forall a, b :: r[|r| - 1].1 < a ==> !IsMatch(s, q, a, b)
  {
    var r := Matches(s, q, i);
    ChainLastGap(MatchTable(s, q), i, r);
    NoneInMeaning(s, q, r[|r| - 1].1 + 1, |s| + 1);
    forall a, b | |s| < a ensures !IsMatch(s, q, a, b) {
      NoMatchBeyond(s, q, a, b);
    }
  }

  /** A match needs room for its text. */
  lemma NoMatchBeyond(s: string, q: char, a: nat, b: nat)
    requires a > |s|
    ensures !IsMatch(s, q, a, b)
  {
  }

  /** The matched texts. */
  function MatchTexts(s: string, ms: seq<(nat, nat)>): (r: seq<string>)
    requires forall k :: 0 <= k < |ms| ==> ms[k].0 <= ms[k].1 < |s|
    ensures |r| == |ms|
    ensures forall k :: 0 <= k < |ms| ==> r[k] == s[ms[k].0..ms[k].1 + 1]
  {
    if |ms| == 0 then [] else [s[ms[0].0..ms[0].1 + 1]] + MatchTexts(s, ms[1..])
  }

  /** Each matched text with `)` appended. */
  function CloseCalls(ts: seq<string>): (r: seq<string>)
    ensures |r| == |ts|
    ensures forall k :: 0 <= k < |ts| ==> r[k] == ts[k] + ")"
  {
    if |ts| == 0 then [] else [ts[0] + ")"] + CloseCalls(ts[1..])
  }

  /** `extractGettext(str)`: the double-quoted calls, then the single-quoted
      ones, each closed with `)`, joined by `;`. */
  function ExtractGettext(v: JsVal): string {
    match v
    case NonString => ""
    case JsString(s) =>
      var dq := MatchTexts(s, Matches(s, '"', 0));
      var sq := MatchTexts(s, Matches(s, '\'', 0));
      Join(CloseCalls(dq + sq), ";")
  }

  lemma {:induction false} JoinNonEmpty(parts: seq<string>, sep: string)
    requires |parts| > 0 && parts[0] != ""
    ensures Join(parts, sep) != ""
  {
    if |parts| > 1 {
      assert Join(parts, sep) == parts[0] + sep + Join(parts[1..], sep);
    }
  }

  /** The calls of a string are empty exactly when neither pattern finds a
      match. */
  lemma ExtractGettextNone(s: string)
    ensures ExtractGettext(JsString(s)) == "" <==>
      Matches(s, '"', 0) == [] && Matches(s, '\'', 0) == []
  {
    var dq, sq := Matches(s, '"', 0), Matches(s, '\'', 0);
    var parts := CloseCalls(MatchTexts(s, dq) + MatchTexts(s, sq));
    if |parts| > 0 {
      assert |parts[0]| >= 1;
      JoinNonEmpty(parts, ";");
    }
  }

  /** The search finds nothing exactly when the pattern matches nowhere. */
  lemma MatchesNoneIff(s: string, q: char)
    ensures Matches(s, q, 0) == [] <==> forall a, b :: !IsMatch(s, q, a, b)
  {
    var r := Matches(s, q, 0);
    MatchesBeforeFirst(s, q, 0);
    if |r| > 0 {
      MatchesSound(s, q, 0);
      assert IsMatch(s, q, r[0].0, r[0].1);
    }
  }

  /** `extractGettext` yields nothing exactly for non-strings and for strings
      without a match of either pattern. */
  lemma ExtractGettextEmpty(v: JsVal)
    ensures ExtractGettext(v) == "" <==>
      v.NonString? || forall a, b :: !IsMatch(v.s, '"', a, b) && !IsMatch(v.s, '\'', a, b)
  {
    if v.JsString? {
      ExtractGettextNone(v.s);
      MatchesNoneIff(v.s, '"');
      MatchesNoneIff(v.s, '\'');
    }
  }

  /** Every piece of the output is the text of a match found, with `)`
      appended; the double-quoted calls come first (each piece is a match by
      `MatchesSound`). */
  lemma ExtractGettextPieces(s: string)
    ensures var dq, sq := Matches(s, '"', 0), Matches(s, '\'', 0);
      var parts := CloseCalls(MatchTexts(s, dq) + MatchTexts(s, sq));
      && |parts| == |dq| + |sq|
      && (forall k :: 0 <= k < |dq| ==> parts[k] == s[dq[k].0..dq[k].1 + 1] + ")")
      && (forall k :: 0 <= k < |sq| ==> parts[|dq| + k] == s[sq[k].0..sq[k].1 + 1] + ")")
      && ExtractGettext(JsString(s)) == Join(parts, ";")
  {
    var dq, sq := Matches(s, '"', 0), Matches(s, '\'', 0);
    var ts := MatchTexts(s, dq) + MatchTexts(s, sq);
    assert forall k :: 0 <= k < |sq| ==> ts[|dq| + k] == MatchTexts(s, sq)[k];
  }

  // ---------------------------------------------------------------------------
  // The line buffer

  /** The non-empty `extractGettext` results of an attribute object, in key
      order. */
  function AttrCalls(attrs: Obj<JsVal>): (r: seq<string>)
    ensures |r| <= |attrs|
    ensures forall k :: 0 <= k < |r| ==> r[k] != ""
    ensures forall x :: x in r <==>
      x != "" && exists k :: 0 <= k < |attrs| && ExtractGettext(attrs[k].1) == x
  {
    if |attrs| == 0 then []
    else
      var x := ExtractGettext(attrs[0].1);
      var rest := AttrCalls(attrs[1..]);
      assert forall k :: 1 <= k < |attrs| ==> attrs[k] == attrs[1..][k - 1];
      (if x != "" then [x] else []) + rest
  }

  /** What a token writes into the buffer, if anything: attribute calls
      joined with no separator then `;`; text or code calls then `;`. */
  function TokenWrite(t: Token): (w: Option<string>)
    ensures w.Some? ==> |w.value| >= 2 && w.value[|w.value| - 1] == ';'
    ensures (t.Eos? || t.Other?) ==> w.None?
    ensures (t.Text? || t.Code?) ==> (w.Some? <==> ExtractGettext(t.val) != "")
    ensures (t.Text? || t.Code?) && w.Some? ==> w.value == ExtractGettext(t.val) + ";"
    ensures t.Attrs? ==> (w.Some? <==> |AttrCalls(t.attrs)| > 0)
    ensures t.Attrs? && w.Some? ==> w.value == Join(AttrCalls(t.attrs), "") + ";"
  {
    match t
    case Attrs(_, attrs) =>
      var calls := AttrCalls(attrs);
      if |calls| > 0 then
        JoinNonEmpty(calls, "");
        Some(Join(calls, "") + ";")
      else None
    case Text(_, v) => var x := ExtractGettext(v); if x != "" then Some(x + ";") else None
    case Code(_, v) => var x := ExtractGettext(v); if x != "" then Some(x + ";") else None
    case _ => None
  }

  /** `buf[n] = w` on a JavaScript array: a negative index is a plain property
      that `join` ignores; an index past the end leaves holes, which `join`
      renders as empty strings. */
  function Write(buf: seq<string>, n: int, w: string): (r: seq<string>)
    ensures n < 0 ==> r == buf
    ensures n >= 0 ==> |r| == if n < |buf| then |buf| else n + 1
    ensures n >= 0 ==> r[n] == w
    ensures forall k :: 0 <= k < |r| && k != n ==> r[k] == if k < |buf| then buf[k] else ""
  {
    if n < 0 then buf
    else if n < |buf| then buf[n := w]
    else buf + seq(n - |buf|, _ => "") + [w]
  }

  /** What one token asks of the buffer: the index of its line and the text
      it writes there, if any. */
  datatype Request = Request(index: int, write: Option<string>)

  function RequestOf(t: Token): (r: Request)
    ensures r.index == t.line - 1 && r.write == TokenWrite(t)
  {
    Request(t.line - 1, TokenWrite(t))
  }

  /** One pass of the lexing loop: `buf[token.line - 1] = …` when the token
      has calls. */
  function Step(buf: seq<string>, r: Request): seq<string> {
    match r.write
    case None => buf
    case Some(w) => Write(buf, r.index, w)
  }

  /** The `do … while (token.type != 'eos')` loop: tokens are taken in order
      up to and including the first end-of-source token. */
  function Run(buf: seq<string>, tokens: seq<Token>): seq<string>
    decreases |tokens|
  {
    if |tokens| == 0 then buf
    else if tokens[0].Eos? then Step(buf, RequestOf(tokens[0]))
    else Run(Step(buf, RequestOf(tokens[0])), tokens[1..])
  }

  /** `parseJade(str)` over the token stream of `str`. */
  function ParseJade(tokens: seq<Token>): string {
    Join(Run([], tokens), "\n")
  }

  // ---------------------------------------------------------------------------
  // The reference reading: each line holds the last write aimed at it

  /** The tokens the loop reads: up to and including the first `Eos`. */
  function Processed(tokens: seq<Token>): (r: seq<Token>)
    ensures |r| <= |tokens| && r == tokens[..|r|]
  {
    if |tokens| == 0 then []
    else if tokens[0].Eos? then [tokens[0]]
    else [tokens[0]] + Processed(tokens[1..])
  }

  /** The requests of a token sequence, in order. */
  function Requests(ts: seq<Token>): (rs: seq<Request>)
    ensures |rs| == |ts| && forall i :: 0 <= i < |ts| ==> rs[i] == RequestOf(ts[i])
  {
    seq(|ts|, i requires 0 <= i < |ts| => RequestOf(ts[i]))
  }

  /** Line `n` (0-based) as the requests leave it: the last write aimed at
      it, or empty. */
  function LineText(rs: seq<Request>, n: nat): string {
    if |rs| == 0 then ""
    else
      var r := rs[|rs| - 1];
      if r.write.Some? && r.index == n then r.write.value else LineText(rs[..|rs| - 1], n)
  }

  /** The number of buffer slots the requests reach: one past the highest
      index written. */
  function Extent(rs: seq<Request>): nat {
    if |rs| == 0 then 0
    else
      var r := rs[|rs| - 1];
      var e := Extent(rs[..|rs| - 1]);
      if r.write.Some? && r.index >= e then r.index + 1 else e
  }

  /** The buffer the requests produce, by the reference reading. */
  function Expected(rs: seq<Request>): (b: seq<string>)
    ensures |b| == Extent(rs)
  {
    seq(Extent(rs), n requires 0 <= n < Extent(rs) => LineText(rs, n))
  }

  /** Serving the requests one by one from the left. */
  function StepAll(buf: seq<string>, rs: seq<Request>): seq<string>
    decreases |rs|
  {
    if |rs| == 0 then buf else StepAll(Step(buf, rs[0]), rs[1..])
  }

  lemma {:induction false} StepAllSnoc(buf: seq<string>, rs: seq<Request>, r: Request)
    ensures StepAll(buf, rs + [r]) == Step(StepAll(buf, rs), r)
    decreases |rs|
  {
    if |rs| == 0 {
      assert rs + [r] == [r];
      assert [r][1..] == [];
    } else {
      assert (rs + [r])[0] == rs[0];
      assert (rs + [r])[1..] == rs[1..] + [r];
      StepAllSnoc(Step(buf, rs[0]), rs[1..], r);
    }
  }

  /** The loop serves exactly the requests of the tokens it reads. */
  lemma {:induction false} RunIsStepAll(buf: seq<string>, tokens: seq<Token>)
    ensures Run(buf, tokens) == StepAll(buf, Requests(Processed(tokens)))
    decreases |tokens|
  {
    if |tokens| > 0 {
      var rs := Requests(Processed(tokens));
      if tokens[0].Eos? {
        assert rs == [RequestOf(tokens[0])];
        assert rs[1..] == [];
      } else {
        RunIsStepAll(Step(buf, RequestOf(tokens[0])), tokens[1..]);
        assert rs[0] == RequestOf(tokens[0]);
        assert rs[1..] == Requests(Processed(tokens[1..]));
      }
    }
  }

  lemma {:induction false} StepAllIsExpected(rs: seq<Request>)
    ensures StepAll([], rs) == Expected(rs)
    decreases |rs|
  {
    if |rs| > 0 {
      var init, r := rs[..|rs| - 1], rs[|rs| - 1];
      assert rs == init + [r];
      StepAllIsExpected(init);
      StepAllSnoc([], init, r);
      var before := Expected(init);
      var after := Step(before, r);
      var want := Expected(rs);
      assert |after| == |want|;
      assert rs[..|rs| - 1] == init;
      forall n | 0 <= n < |want| ensures after[n] == want[n] {
        assert want[n] == LineText(rs, n);
        if r.write.Some? && r.index == n {
          assert after[n] == r.write.value;
        } else if n < |before| {
          assert after[n] == before[n] == LineText(init, n);
        } else {
          LineTextBeyond(init, n);
          assert after[n] == "";
        }
      }
    }
  }

  /** No request reaches past the extent. */
  lemma {:induction false} LineTextBeyond(rs: seq<Request>, n: nat)
    requires Extent(rs) <= n
    ensures LineText(rs, n) == ""
  {
    if |rs| > 0 {
      LineTextBeyond(rs[..|rs| - 1], n);
    }
  }

  /** The buffer `parseJade` joins holds, at each index `n`, the write of the
      last token read on line `n + 1`, and the empty string where no token
      wrote; it ends at the highest line written. Tokens after the first
      `Eos` are never read. */
  lemma BufferIsLastWrite(tokens: seq<Token>)
    ensures Run([], tokens) == Expected(Requests(Processed(tokens)))
    ensures ParseJade(tokens) == Join(Expected(Requests(Processed(tokens))), "\n")
  {
    RunIsStepAll([], tokens);
    StepAllIsExpected(Requests(Processed(tokens)));
  }

  /** When no write contains a newline, line `n + 1` of the output is exactly
      what the last token on Jade line `n + 1` wrote, so the scanner sees each
      call on its template line. */
  lemma OutputLines(tokens: seq<Token>)
    requires Extent(Requests(Processed(tokens))) > 0
    requires forall t :: t in Processed(tokens) && TokenWrite(t).Some? ==> '\n' !in TokenWrite(t).value
    ensures Split(ParseJade(tokens), '\n') == Expected(Requests(Processed(tokens)))
  {
    var ts := Processed(tokens);
    var rs := Requests(ts);
    BufferIsLastWrite(tokens);
    var b := Expected(rs);
    forall n | 0 <= n < |b| ensures '\n' !in b[n] {
      LineTextFrom(rs, n);
      if b[n] != "" {
        var i :| 0 <= i < |rs| && rs[i].write == Some(b[n]);
        assert ts[i] in ts;
      }
    }
    SplitJoin(b, '\n');
  }

  /** Every non-empty line text is the write of some request. */
  lemma {:induction false} LineTextFrom(rs: seq<Request>, n: nat)
    ensures LineText(rs, n) == "" || exists i :: 0 <= i < |rs| && rs[i].write == Some(LineText(rs, n))
  {
    if |rs| > 0 {
      var r := rs[|rs| - 1];
      if !(r.write.Some? && r.index == n) {
        var init := rs[..|rs| - 1];
        LineTextFrom(init, n);
        if LineText(rs, n) != "" {
          var i :| 0 <= i < |init| && init[i].write == Some(LineText(rs, n));
          assert rs[i] == init[i];
        }
      }
    }
  }
}
