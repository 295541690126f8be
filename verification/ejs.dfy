/** `parseEJS` of `lib/jsxgettext.js`: the template preprocessor shared by the
    EJS and Jinja front ends. It keeps the JavaScript between the open and close
    delimiters, each piece followed by `;`, and the newlines of the text
    outside them, so that the scanner sees the template's code on (roughly)
    the template's lines. */
module Ejs {
  import opened Wrappers
  import opened Strings

  datatype EjsOptions = EjsOptions(open: Option<string>, close: Option<string>)

  datatype EjsError =
    | UnclosedTag   // an open delimiter without a close delimiter after it

  /** `options.open || '<%'`: an absent or empty delimiter falls back to the
      default. */
  function Delimiter(given: Option<string>, default: string): (d: string)
    requires default != ""
    ensures d != ""
    ensures given.Some? && given.value != "" ==> d == given.value
    ensures given.None? || given.value == "" ==> d == default
  {
    if given.Some? && given.value != "" then given.value else default
  }

  /** Index of the body of a tag whose delimiter ends at `k`: one `=` or `-`
      right after the delimiter is skipped. */
  function BodyStart(s: string, k: nat): (st: nat)
    requires k <= |s|
    ensures st == k || (st == k + 1 && k < |s| && (s[k] == '=' || s[k] == '-'))
    ensures k < |s| && (s[k] == '=' || s[k] == '-') ==> st == k + 1
  {
    if k < |s| && (s[k] == '=' || s[k] == '-') then k + 1 else k
  }

  /** The body with a trailing `-` marker removed: a body ending in `-` loses
      its last two characters (or all of them when it is shorter). */
  function TrimDash(body: string): (js: string)
    ensures |js| <= |body| && js == body[..|js|]
    ensures |body| > 0 && body[|body| - 1] == '-' ==> |js| == if |body| >= 2 then |body| - 2 else 0
    ensures (|body| == 0 || body[|body| - 1] != '-') ==> js == body
  {
    if |body| > 0 && body[|body| - 1] == '-' then body[..if |body| >= 2 then |body| - 2 else 0] else body
  }

  /** `/^\s*include\s*[^\s]+\s*$/.test(js)`: an EJS include statement, the word
      `include` followed by one space-free operand, blanks allowed around. */
  predicate IsInclude(js: string) {
    var t := TrimStart(js);
    && |t| >= 7 && t[..7] == "include"
    && var operand := Trim(t[7..]);
       operand != "" && NoSpace(operand)
  }

  /** What one tag contributes: a newline for every newline of its code, then
      the code itself (nothing for an include statement), then `;`. */
  function Fragment(body: string): (r: string)
  {
    var js := TrimDash(body);
    var kept := Newlines(js) + (if IsInclude(js) then "" else js);
    kept + ";"
  }

  /** What the loop pushes onto its output, before the pieces are joined: a
      newline of the text outside the tags, or the body of one tag. */
  datatype Piece = LineBreak | Code(body: string)

  /** The text of one piece. */
  function PieceText(p: Piece): string {
    match p
    case LineBreak => "\n"
    case Code(body) => Fragment(body)
  }

  /** `out.join('')`: the pieces' texts, in order. */
  function Render(ps: seq<Piece>): string {
    if |ps| == 0 then "" else PieceText(ps[0]) + Render(ps[1..])
  }

  /** Prefixes the value of a successful result. */
  function Prepend<T>(p: seq<T>, r: Result<seq<T>, EjsError>): (r': Result<seq<T>, EjsError>)
    ensures r.Err? ==> r' == r
    ensures r.Ok? ==> r' == Ok(p + r.value)
  {
    match r
    case Ok(t) => Ok(p + t)
    case Err(e) => Err(e)
  }

  /** The main loop of `parseEJS` over the text that remains: at an open
      delimiter, the tag's body, continuing after the close delimiter (no
      close delimiter is an error); at a newline, a line break; any other
      character is dropped. */
  function Scan(s: string, open: string, close: string): (r: Result<seq<Piece>, EjsError>)
    requires open != "" && close != ""
    decreases |s|
  {
    if |s| == 0 then Ok([])
    else if At(s, open, 0) then
      var st := BodyStart(s, |open|);
      var end := IndexOf(s, close, st);
      if end < 0 then Err(UnclosedTag)
      else Prepend([Code(s[st..end])], Scan(s[end + |close|..], open, close))
    else Prepend(if s[0] == '\n' then [LineBreak] else [], Scan(s[1..], open, close))
  }

  /** The loop's pieces, joined. */
  function Emit(s: string, open: string, close: string): Result<string, EjsError>
    requires open != "" && close != ""
  {
    match Scan(s, open, close)
    case Ok(ps) => Ok(Render(ps))
    case Err(e) => Err(e)
  }

  /** `parseEJS(str, options)`. */
  function ParseEJS(s: string, options: Option<EjsOptions>): Result<string, EjsError> {
    var o := options.GetOr(EjsOptions(None, None));
    Emit(s, Delimiter(o.open, "<%"), Delimiter(o.close, "%>"))
  }

  /** The Jinja front end: `parseEJS` with `{{` and `}}`. */
  function ParseJinja(s: string): Result<string, EjsError> {
    ParseEJS(s, Some(EjsOptions(Some("{{"), Some("}}"))))
  }

  // ---------------------------------------------------------------------------
  // Properties

  /** The line breaks plain text contributes: one per newline. */
  function Breaks(s: string): (ps: seq<Piece>)
    ensures forall i :: 0 <= i < |ps| ==> ps[i] == LineBreak
  {
    if |s| == 0 then [] else (if s[0] == '\n' then [LineBreak] else []) + Breaks(s[1..])
  }

  lemma {:induction false} RenderAppend(a: seq<Piece>, b: seq<Piece>)
    ensures Render(a + b) == Render(a) + Render(b)
  {
    if |a| == 0 {
      assert a + b == b;
    } else {
      assert (a + b)[0] == a[0];
      assert (a + b)[1..] == a[1..] + b;
      RenderAppend(a[1..], b);
    }
  }

  /** Plain text's line breaks render as exactly its newlines. */
  lemma {:induction false} RenderBreaks(s: string)
    ensures Render(Breaks(s)) == Newlines(s)
  {
    if |s| > 0 {
      var head: seq<Piece> := if s[0] == '\n' then [LineBreak] else [];
      RenderBreaks(s[1..]);
      RenderAppend(head, Breaks(s[1..]));
      assert Render(head) == if s[0] == '\n' then "\n" else "";
    }
  }

  /** Text before the first open delimiter contributes exactly its line
      breaks. */
  lemma {:induction false} ScanText(pre: string, x: string, open: string, close: string)
    requires open != "" && close != ""
    requires forall q :: 0 <= q < |pre| ==> !At(pre + x, open, q)
    ensures Scan(pre + x, open, close) == Prepend(Breaks(pre), Scan(x, open, close))
  {
    if |pre| == 0 {
      assert pre + x == x;
      match Scan(x, open, close)
      case Ok(t) => assert [] + t == t;
      case Err(_) =>
    } else {
      var s := pre + x;
      assert !At(s, open, 0);
      assert s[1..] == pre[1..] + x;
      forall q | 0 <= q < |pre[1..]| ensures !At(pre[1..] + x, open, q) {
        assert !At(s, open, q + 1);
        AtShift(s, open, q);
      }
      ScanText(pre[1..], x, open, close);
      var head: seq<Piece> := if pre[0] == '\n' then [LineBreak] else [];
      assert Breaks(pre) == head + Breaks(pre[1..]);
      match Scan(x, open, close)
      case Ok(t) => assert head + (Breaks(pre[1..]) + t) == Breaks(pre) + t;
      case Err(_) =>
    }
  }

  lemma AtShift(s: string, p: string, q: nat)
    requires |s| >= 1
    ensures At(s, p, q + 1) <==> At(s[1..], p, q)
  {
    if q + 1 + |p| <= |s| {
      var a, b := s[q + 1..q + 1 + |p|], s[1..][q..q + |p|];
      forall k | 0 <= k < |a| ensures a[k] == b[k] {
      }
      assert a == b;
    }
  }

  /** A template without any open delimiter becomes just its newlines. */
  lemma PlainTextKeepsLines(s: string, open: string, close: string)
    requires open != "" && close != ""
    requires forall q :: 0 <= q < |s| ==> !At(s, open, q)
    ensures Emit(s, open, close) == Ok(Newlines(s))
  {
    assert s + "" == s;
    ScanText(s, "", open, close);
    assert Breaks(s) + [] == Breaks(s);
    RenderBreaks(s);
  }

  /** One complete tag: the open delimiter, an optional `=`/`-` marker, a body
      without the close delimiter, the close delimiter. It yields the body,
      and scanning resumes after the close delimiter. */
  lemma TagStep(open: string, m: string, body: string, close: string, post: string)
    requires open != "" && close != ""
    requires m == "" || m == "=" || m == "-"
    requires var s := open + m + body + close + post;
      m == "" ==> s[|open|] != '=' && s[|open|] != '-'
    requires var s := open + m + body + close + post;
      forall q :: |open| + |m| <= q < |open| + |m| + |body| ==> !At(s, close, q)
    ensures Scan(open + m + body + close + post, open, close)
            == Prepend([Code(body)], Scan(post, open, close))
  {
    var s := open + m + body + close + post;
    var st := |open + m|;
    var en := st + |body|;
    TagOpen(s, open, m, body, close, post);
    TagClose(s, open + m, body, close, post);
    ScanAtTag(s, open, close, st, en, body, post);
  }

  /** At an open delimiter whose body ends at a close delimiter, the scan
      yields the body and resumes after that delimiter. */
  lemma ScanAtTag(s: string, open: string, close: string, st: nat, en: nat, body: string, post: string)
    requires open != "" && close != "" && At(s, open, 0)
    requires BodyStart(s, |open|) == st && IndexOf(s, close, st) == en
    requires s[st..en] == body && s[en + |close|..] == post
    ensures Scan(s, open, close) == Prepend([Code(body)], Scan(post, open, close))
  {
  }

  /** The same step on the joined output: the tag's fragment comes first. */
  lemma TagEmitted(open: string, m: string, body: string, close: string, post: string)
    requires open != "" && close != ""
    requires m == "" || m == "=" || m == "-"
    requires var s := open + m + body + close + post;
      m == "" ==> s[|open|] != '=' && s[|open|] != '-'
    requires var s := open + m + body + close + post;
      forall q :: |open| + |m| <= q < |open| + |m| + |body| ==> !At(s, close, q)
    ensures Emit(open + m + body + close + post, open, close)
            == Prepend(Fragment(body), Emit(post, open, close))
  {
    TagStep(open, m, body, close, post);
    match Scan(post, open, close)
    case Ok(ps) => RenderAppend([Code(body)], ps);
    case Err(_) =>
  }

  /** The tag opens at the start of `s`, and its body starts after the
      marker. */
  lemma TagOpen(s: string, open: string, m: string, body: string, close: string, post: string)
    requires s == open + m + body + close + post
    requires close != ""
    requires m == "" || m == "=" || m == "-"
    requires m == "" ==> s[|open|] != '=' && s[|open|] != '-'
    ensures At(s, open, 0) && BodyStart(s, |open|) == |open| + |m|
  {
    assert s == open + (m + body + close + post);
    assert s[..|open|] == open;
    if m != "" {
      assert s[|open|] == m[0];
    }
  }

  /** The first close delimiter after the body ends it, and what follows the
      delimiter is the rest of the text. */
  lemma TagClose(s: string, pre: string, body: string, close: string, post: string)
    requires s == pre + body + close + post
    requires forall q :: |pre| <= q < |pre| + |body| ==> !At(s, close, q)
    ensures var en := |pre| + |body|;
      && IndexOf(s, close, |pre|) == en
      && s[|pre|..en] == body && s[en + |close|..] == post
  {
    var en := |pre| + |body|;
    assert s == (pre + body) + (close + post);
    assert s[en..en + |close|] == close;
    IndexOfFirst(s, close, |pre|, en);
    assert s[en + |close|..] == post by {
      assert s == (pre + body + close) + post;
    }
  }

  /** The first occurrence at or after `from` is the one `indexOf` finds. */
  lemma IndexOfFirst(s: string, p: string, from: nat, i: nat)
    requires from <= i && At(s, p, i)
    requires forall q :: from <= q < i ==> !At(s, p, q)
    ensures IndexOf(s, p, from) == i
  {
  }

  /** An open delimiter with no close delimiter after it is an error. */
  lemma UnclosedTagRejected(s: string, open: string, close: string)
    requires open != "" && close != ""
    requires At(s, open, 0)
    requires forall q :: |open| <= q ==> !At(s, close, q)
    ensures Emit(s, open, close) == Err(UnclosedTag)
  {
  }

  /** Outside include statements, each newline inside a tag appears twice in
      the output: once pushed for the line count, once inside the code. */
  lemma TagNewlinesDoubled(body: string)
    requires !IsInclude(TrimDash(body))
    ensures Count(Fragment(body), '\n') == 2 * Count(TrimDash(body), '\n')
  {
    var js := TrimDash(body);
    CountAppend(Newlines(js) + js, ";", '\n');
    CountAppend(Newlines(js), js, '\n');
    NewlinesOnly(js);
    assert Count(";", '\n') == 0;
  }

  lemma {:induction false} NewlinesOnly(s: string)
    ensures Count(Newlines(s), '\n') == Count(s, '\n')
  {
    if |s| > 0 {
      NewlinesOnly(s[1..]);
      var head := if s[0] == '\n' then "\n" else "";
      CountAppend(head, Newlines(s[1..]), '\n');
    }
  }

  /** No occurrence of `p` starts where its first character is missing. */
  lemma NoOccurrence(s: string, p: string, lo: nat, hi: nat)
    requires |p| > 0 && lo <= hi <= |s|
    requires p[0] !in s[lo..hi]
    ensures forall q :: lo <= q < hi ==> !At(s, p, q)
  {
    forall q | lo <= q < hi ensures !At(s, p, q) {
      assert s[q] == s[lo..hi][q - lo];
      assert q + |p| <= |s| ==> s[q..q + |p|][0] == s[q];
    }
  }

  /** Code whose first non-blank character is not `i` is no include. */
  lemma NotInclude(js: string)
    requires |TrimStart(js)| > 0 && TrimStart(js)[0] != 'i'
    ensures !IsInclude(js)
  {
    var t := TrimStart(js);
    assert |t| >= 7 ==> t[..7][0] == t[0];
  }

  /** An output tag `<%= code %>` on one line yields `code;`, and scanning
      resumes after `%>`. */
  lemma OutputTag(code: string, post: string)
    requires '\n' !in code && '%' !in code
    requires |code| == 0 || code[|code| - 1] != '-'
    requires !IsInclude(code)
    ensures Emit("<%=" + code + "%>" + post, "<%", "%>") == Prepend(code + ";", Emit(post, "<%", "%>"))
  {
    var s := "<%" + "=" + code + "%>" + post;
    OutputTagText(code, post);
    NoOccurrence(s, "%>", 3, 3 + |code|);
    TagEmitted("<%", "=", code, "%>", post);
    FragmentPlain(code);
  }

  /** The output tag's text, split at its marker, with the code at index 3. */
  lemma OutputTagText(code: string, post: string)
    ensures "<%=" + code + "%>" + post == "<%" + "=" + code + "%>" + post
    ensures ("<%" + "=" + code + "%>" + post)[3..3 + |code|] == code
  {
    assert "<%" + "=" == "<%=";
    var s := "<%" + "=" + code + "%>" + post;
    assert s == "<%=" + (code + ("%>" + post));
  }

  /** The Jinja front end uses `{{` and `}}`: a one-line tag `{{ code }}`
      yields `code;`, and scanning resumes after `}}`. */
  lemma JinjaTag(code: string, post: string)
    requires '\n' !in code && '}' !in code
    requires |code| == 0 || (code[0] != '=' && code[0] != '-' && code[|code| - 1] != '-')
    requires !IsInclude(code)
    ensures ParseJinja("{{" + code + "}}" + post) == Prepend(code + ";", ParseJinja(post))
  {
    var s := "{{" + "" + code + "}}" + post;
    JinjaTagText(code, post);
    NoOccurrence(s, "}}", 2, 2 + |code|);
    TagEmitted("{{", "", code, "}}", post);
    FragmentPlain(code);
  }

  /** The Jinja tag's text with an empty marker, the code at index 2. */
  lemma JinjaTagText(code: string, post: string)
    ensures "{{" + code + "}}" + post == "{{" + "" + code + "}}" + post
    ensures var s := "{{" + "" + code + "}}" + post;
      s[2..2 + |code|] == code && s[2] == if |code| == 0 then '}' else code[0]
  {
    assert "{{" + "" == "{{";
    var s := "{{" + "" + code + "}}" + post;
    assert s == "{{" + (code + ("}}" + post));
  }

  /** A one-line tag body that is not an include contributes itself and `;`. */
  lemma FragmentPlain(body: string)
    requires '\n' !in body && (|body| == 0 || body[|body| - 1] != '-')
    requires !IsInclude(body)
    ensures Fragment(body) == body + ";"
  {
    assert TrimDash(body) == body;
    NewlinesAbsent(body);
    assert Newlines(body) + body == body;
  }

  /** `include` followed by a blank and one space-free operand is an include
      statement: the tag contributes only `;`. */
  lemma IncludeDropped(operand: string)
    requires operand != "" && NoSpace(operand) && operand[|operand| - 1] != '-'
    ensures Fragment("include " + operand) == ";"
  {
    var js := "include " + operand;
    assert js[|js| - 1] == operand[|operand| - 1];
    assert TrimDash(js) == js;
    IncludeRecognised(operand);
    IncludeOneLine(operand);
    NewlinesAbsent(js);
  }

  lemma IncludeOneLine(operand: string)
    requires NoSpace(operand)
    ensures '\n' !in "include " + operand
  {
    var js := "include " + operand;
    forall i | 0 <= i < |js| ensures js[i] != '\n' {
      if i >= 8 {
        assert js[i] == operand[i - 8];
      }
    }
  }

  lemma IncludeRecognised(operand: string)
    requires operand != "" && NoSpace(operand)
    ensures IsInclude("include " + operand)
  {
    var js := "include " + operand;
    assert js[0] == 'i' && js[..7] == "include";
    TrimStartAt(js);
    assert js[7..] == " " + operand;
    TrimSpaced(operand);
  }

  /** One leading space and nothing else around a word trims away. */
  lemma TrimSpaced(w: string)
    requires w != "" && !IsJsSpace(w[0]) && !IsJsSpace(w[|w| - 1])
    ensures Trim(" " + w) == w
  {
    var rest := " " + w;
    assert rest[1..] == w;
    TrimStartAt(rest);
    TrimStartAt(w);
    TrimEndAt(w);
  }

  lemma TrimStartAt(s: string)
    requires |s| > 0
    ensures TrimStart(s) == if IsJsSpace(s[0]) then TrimStart(s[1..]) else s
  {
  }

  lemma TrimEndAt(s: string)
    requires |s| > 0
    ensures TrimEnd(s) == if IsJsSpace(s[|s| - 1]) then TrimEnd(s[..|s| - 1]) else s
  {
  }

  // ---------------------------------------------------------------------------
  // The loop body as written, for a tag without a close delimiter

  /** `str.substring(a, b)`: arguments clamped to the string, swapped when
      out of order. */
  function JsSubstring(s: string, a: int, b: int): (r: string)
    ensures |r| <= |s|
  {
    var lo := if a < 0 then 0 else if a > |s| then |s| else a;
    var hi := if b < 0 then 0 else if b > |s| then |s| else b;
    if lo <= hi then s[lo..hi] else s[hi..lo]
  }

  /** One pass of the loop body of `parseEJS` at an open delimiter at `i`,
      with its arithmetic as written: the code taken and the index the next
      pass starts at (after the loop's own increment). */
  function OpenTagStepAsWritten(s: string, open: string, close: string, i: nat): (r: (int, string))
    requires At(s, open, i)
    ensures IndexOf(s, close, BodyStart(s, i + |open|)) >= 0 ==>
      r.0 == IndexOf(s, close, BodyStart(s, i + |open|)) + |close|
    ensures IndexOf(s, close, BodyStart(s, i + |open|)) < 0 ==> r.0 == |close| - 1
  {
    var st := BodyStart(s, i + |open|);
    var end := IndexOf(s, close, st);
    var js := JsSubstring(s, st, end);
    (st + (end - st + |close| - 1) + 1, js)
  }

  /** In `a<%b` the tag at index 1 has no close: the pass takes `a<%` as code
      and sends the loop back to index 1, the same open delimiter, so the
      loop never ends. */
  lemma UnclosedTagLoopsAsWritten()
    ensures At("a<%b", "<%", 1)
    ensures OpenTagStepAsWritten("a<%b", "<%", "%>", 1) == (1, "a<%")
  {
    var s := "a<%b";
    assert s[1..3] == "<%";
    assert BodyStart(s, 3) == 3;
    assert !At(s, "%>", 3) && !At(s, "%>", 4);
    assert forall q :: 3 <= q ==> !At(s, "%>", q);
    assert IndexOf(s, "%>", 3) == -1;
    assert s[0..3] == "a<%";
  }

  /** An unclosed tag at index 0 ends the loop instead: in `<%b` the pass
      takes `<%` as code and resumes at index 1, past the open delimiter,
      where the rest `%b` holds no open delimiter. Such a template is
      `Err(UnclosedTag)` in the corrected model. */
  lemma UnclosedTagAtStartAsWritten()
    ensures OpenTagStepAsWritten("<%b", "<%", "%>", 0) == (1, "<%")
    ensures forall q :: 1 <= q < 3 ==> !At("<%b", "<%", q)
    ensures Emit("<%b", "<%", "%>") == Err(UnclosedTag)
  {
    var s := "<%b";
    assert s[0..2] == "<%";
    assert BodyStart(s, 2) == 2;
    assert !At(s, "%>", 2) && !At(s, "%>", 3);
    assert forall q :: 2 <= q ==> !At(s, "%>", q);
    assert IndexOf(s, "%>", 2) == -1;
    UnclosedTagRejected(s, "<%", "%>");
  }

  /** An early unclosed tag ends the loop only when no open delimiter follows
      from index `close.length - 1` on: in `<%b<%` the pass at index 0 resumes
      at index 1, the loop meets the second open delimiter at index 3, and
      that pass sends it back to index 1, forever. */
  lemma UnclosedTagLaterAsWritten()
    ensures OpenTagStepAsWritten("<%b<%", "<%", "%>", 0) == (1, "<%")
    ensures forall q :: 1 <= q < 3 ==> !At("<%b<%", "<%", q)
    ensures At("<%b<%", "<%", 3)
    ensures OpenTagStepAsWritten("<%b<%", "<%", "%>", 3) == (1, "<%b<%")
  {
    var s := "<%b<%";
    assert s[0..2] == "<%" && s[3..5] == "<%";
    assert BodyStart(s, 2) == 2 && BodyStart(s, 5) == 5;
    assert forall q :: 2 <= q ==> !At(s, "%>", q);
    assert IndexOf(s, "%>", 2) == -1 && IndexOf(s, "%>", 5) == -1;
    assert s[0..5] == s;
  }
}
