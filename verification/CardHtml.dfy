/** The header card of a forwarded copy as an HTML table, and its removal from a reply
    (src/lightr/mail/replies.py). Case is folded over ASCII. */
module CardHtml {
  import opened Text
  import Card

  const TABLE := "<table"

  // ----- searching

  predicate At(s: string, pat: string, i: nat) { i + |pat| <= |s| && s[i..i + |pat|] == pat }

  ghost predicate FirstAt(s: string, pat: string, i: nat) { At(s, pat, i) && forall j: nat :: j < i ==> !At(s, pat, j) }

  ghost predicate Lacks(s: string, pat: string) { forall j: nat :: !At(s, pat, j) }

  /** `s.find(pat, i)` */
  function Find(s: string, pat: string, i: nat): (at: Option<nat>)
    requires forall j: nat :: j < i ==> !At(s, pat, j)
    ensures at.Some? ==> FirstAt(s, pat, at.value)
    ensures at.None? ==> Lacks(s, pat)
    decreases |s| - i
  {
    if At(s, pat, i) then Some(i) else if i >= |s| then None else Find(s, pat, i + 1)
  }

  /** The last occurrence that lies before `end`. */
  ghost predicate LastAt(s: string, pat: string, end: nat, i: nat) {
    At(s, pat, i) && i + |pat| <= end && forall j: nat :: i < j && j + |pat| <= end ==> !At(s, pat, j)
  }

  /** `s.rfind(pat, 0, end)` */
  function FindLast(s: string, pat: string, end: nat): (at: Option<nat>)
    requires pat != ""
    ensures at.Some? ==> LastAt(s, pat, end, at.value)
    ensures at.None? ==> forall j: nat :: j + |pat| <= end ==> !At(s, pat, j)
  {
    if end < |pat| then None
    else if At(s, pat, end - |pat|) then Some(end - |pat|)
    else FindLast(s, pat, end - 1)
  }

  // ----- table tags

  predicate IsWord(c: char) { IsLetter(c) || IsDigit(c) }

  /** The text after the first `>`. */
  function AfterClose(s: string): (r: Option<string>)
    ensures r.Some? ==> |r.value| < |s|
  {
    if s == "" then None else if s[0] == '>' then Some(s[1..]) else AfterClose(s[1..])
  }

  /** `table\b[^>]*>`, whatever the case: what follows it. */
  function TagBody(s: string): (r: Option<string>)
    ensures r.Some? ==> |r.value| < |s|
  {
    if |s| < 5 || Lower(s[..5]) != "table" || (|s| > 5 && IsWord(s[5])) then None else AfterClose(s[5..])
  }

  /** `<(/?)table\b[^>]*>` at the front of a text: whether it closes, and what
      follows it. */
  function Tag(s: string): (r: Option<(bool, string)>)
    ensures r.Some? ==> |r.value.1| < |s|
  {
    if s == "" || s[0] != '<' then None
    else
      var closing := |s| > 1 && s[1] == '/';
      match TagBody(s[if closing then 2 else 1..])
      case None => None
      case Some(rest) => Some((closing, rest))
  }

  /** What follows the tag that brings the depth to zero. */
  function Balanced(s: string, depth: int): (r: Option<string>)
    ensures r.Some? ==> |r.value| < |s|
    decreases |s|
  {
    if s == "" then None
    else
      match Tag(s)
      case None => Balanced(s[1..], depth)
      case Some((closing, rest)) =>
        var depth' := depth + (if closing then -1 else 1);
        if depth' == 0 then Some(rest) else Balanced(rest, depth')
  }

  function Stripped(html: string): string {
    match Find(html, Card.FORWARD_MARKER, 0)
    case None => html
    case Some(at) =>
      match FindLast(Lower(html), TABLE, at)
      case None => html
      case Some(start) =>
        match Balanced(html[start..], 0)
        case None => html
        case Some(rest) => html[..start] + rest
  }

  /** `strip_card_html`: a loop over the table tags from the card's own on. */
  method StripCardHtml(html: string) returns (stripped: string)
    ensures stripped == Stripped(html)
  {
    hide Balanced, Tag, Lower, Find, FindLast;
    var at := Find(html, Card.FORWARD_MARKER, 0);
    if at.None? { return html; }
    var start := FindLast(Lower(html), TABLE, at.value);
    if start.None? { return html; }
    var s, depth := html[start.value..], 0;
    while s != ""
      invariant Balanced(html[start.value..], 0) == Balanced(s, depth)
      decreases |s|
    {
      BalancedUnfold(s, depth);
      match Tag(s) {
        case None => s := s[1..];
        case Some((closing, rest)) =>
          depth := depth + (if closing then -1 else 1);
          if depth == 0 { return html[..start.value] + rest; }
          s := rest;
      }
    }
    BalancedUnfold(s, depth);
    stripped := html;
  }

  lemma {:induction false} BalancedUnfold(s: string, depth: int)
    ensures Balanced(s, depth) ==
      if s == "" then None
      else
        match Tag(s)
        case None => Balanced(s[1..], depth)
        case Some((closing, rest)) =>
          if depth + (if closing then -1 else 1) == 0 then Some(rest)
          else Balanced(rest, depth + (if closing then -1 else 1))
    ensures Tag(s).Some? ==> |Tag(s).value.1| < |s|
  {
    hide Tag;
  }

  // ----- documents

  /** A fragment of a document: text without angle brackets, a comment, a tag that
      stands alone such as `<br>` or `<img src="...">`, or an element. */
  datatype Node =
    | Words(text: string)
    | Comment(text: string)
    | Void(name: string, attributes: string)
    | Element(name: string, attributes: string, children: seq<Node>)

  function Render(n: Node): string
    decreases n, 1
  {
    match n
    case Words(text) => text
    case Comment(text) => "<!--" + text + "-->"
    case Void(name, attributes) => "<" + name + attributes + ">"
    case Element(name, attributes, children) =>
      "<" + name + attributes + ">" + RenderAll(children) + "</" + name + ">"
  }

  function RenderAll(nodes: seq<Node>): string
    decreases nodes, 0
  {
    if nodes == [] then "" else Render(nodes[0]) + RenderAll(nodes[1..])
  }

  ghost predicate NoBrackets(s: string) { '<' !in s && '>' !in s }

  /** Names are words, and attributes stand apart from them; neither holds an angle
      bracket. */
  ghost predicate ProperTag(name: string, attributes: string) {
    && name != "" && (forall c :: c in name ==> IsWord(c))
    && NoBrackets(attributes) && (attributes == "" || !IsWord(attributes[0]))
  }

  ghost predicate Proper(n: Node)
    decreases n, 1
  {
    match n
    case Words(text) => NoBrackets(text)
    case Comment(text) => '<' !in text
    case Void(name, attributes) => ProperTag(name, attributes) && Lower(name) != "table"
    case Element(name, attributes, children) => ProperTag(name, attributes) && AllProper(children)
  }

  ghost predicate AllProper(nodes: seq<Node>)
    decreases nodes, 0
  {
    nodes == [] || (Proper(nodes[0]) && AllProper(nodes[1..]))
  }

  // ----- scanning a document

  lemma {:induction false} ScanWords(text: string, rest: string, depth: int)
    requires '<' !in text
    ensures Balanced(text + rest, depth) == Balanced(rest, depth)
  {
    hide Tag;
    if text == "" {
      assert text + rest == rest;
    } else {
      NoTag(text + rest);
      assert (text + rest)[1..] == text[1..] + rest;
      ScanWords(text[1..], rest, depth);
    }
  }

  lemma {:induction false} NoTag(s: string)
    requires s != "" && s[0] != '<'
    ensures Tag(s) == None
  {
  }

  lemma {:induction false} AfterCloseExact(attributes: string, rest: string)
    requires '>' !in attributes
    ensures AfterClose(attributes + ">" + rest) == Some(rest)
  {
    var s := attributes + ">" + rest;
    if attributes == "" {
      assert s[1..] == rest;
    } else {
      assert s[1..] == attributes[1..] + ">" + rest;
      AfterCloseExact(attributes[1..], rest);
    }
  }

  /** The tag body test on `name attributes>`. */
  lemma {:induction false} TagBodyExact(name: string, attributes: string, rest: string)
    requires ProperTag(name, attributes)
    ensures TagBody(name + attributes + ">" + rest) == if Lower(name) == "table" then Some(rest) else None
  {
    var tail := attributes + ">" + rest;
    var s := name + tail;
    assert name + attributes + ">" + rest == s;
    assert !IsWord(tail[0]);
    LowerTake(s, name);
    if |name| == 5 {
      assert s[..5] == name && s[5..] == tail && s[5] == tail[0];
      hide Lower, IsWord;
      AfterCloseExact(attributes, rest);
    } else if |name| > 5 {
      assert name[5] in name && s[5] == name[5];
    } else if |s| >= 5 {
      assert s[|name|] == tail[0];
      assert Lower(s[..5])[|name|] == LowerChar(tail[0]);
      NotLetter(tail[0]);
    }
  }

  lemma {:induction false} LowerTake(s: string, name: string)
    ensures |Lower(s)| == |s| && |Lower(name)| == |name| && |"table"| == 5
  {
  }

  lemma {:induction false} NotLetter(c: char)
    requires !IsWord(c)
    ensures forall i :: 0 <= i < 5 ==> "table"[i] != LowerChar(c)
  {
    assert "table" == ['t', 'a', 'b', 'l', 'e'];
  }

  lemma {:induction false} OpenTag(name: string, attributes: string, rest: string)
    requires ProperTag(name, attributes)
    ensures Tag("<" + name + attributes + ">" + rest) == if Lower(name) == "table" then Some((false, rest)) else None
  {
    var s := "<" + name + attributes + ">" + rest;
    TagBodyExact(name, attributes, rest);
    assert s[1..] == name + attributes + ">" + rest;
    assert s[1] == name[0] && name[0] in name && !IsWord('/');
    hide TagBody, Lower;
  }

  lemma {:induction false} CloseTag(name: string, rest: string)
    requires ProperTag(name, "")
    ensures Tag("</" + name + ">" + rest) == if Lower(name) == "table" then Some((true, rest)) else None
  {
    var s := "</" + name + ">" + rest;
    TagBodyExact(name, "", rest);
    assert s[2..] == name + "" + ">" + rest;
    assert s[0] == '<' && s[1] == '/';
    hide TagBody, Lower;
  }

  function DepthAfter(name: string, depth: int, change: int): int { if Lower(name) == "table" then depth + change else depth }

  /** An opening tag moves the scan past itself, one deeper if it opens a table. */
  lemma {:induction false} ScanOpen(name: string, attributes: string, rest: string, depth: int)
    requires ProperTag(name, attributes) && depth >= 0
    ensures Balanced("<" + name + attributes + ">" + rest, depth) == Balanced(rest, DepthAfter(name, depth, 1))
  {
    var s := "<" + name + attributes + ">" + rest;
    OpenTag(name, attributes, rest);
    BalancedUnfold(s, depth);
    if Lower(name) != "table" {
      WordsOnly(name, attributes);
      assert s[1..] == (name + attributes + ">") + rest;
      ScanWords(name + attributes + ">", rest, depth);
    }
    hide Balanced, Lower, Tag;
  }

  lemma {:induction false} WordsOnly(name: string, attributes: string)
    requires ProperTag(name, attributes)
    ensures '<' !in name + attributes + ">" && '<' !in "/" + name + ">"
  {
    assert !IsWord('<');
  }

  /** A closing tag that does not bring the depth to zero is passed. */
  lemma {:induction false} ScanClose(name: string, rest: string, depth: int)
    requires ProperTag(name, "") && DepthAfter(name, depth, -1) != 0
    ensures Balanced("</" + name + ">" + rest, depth) == Balanced(rest, DepthAfter(name, depth, -1))
  {
    var s := "</" + name + ">" + rest;
    CloseTag(name, rest);
    BalancedUnfold(s, depth);
    if Lower(name) != "table" {
      WordsOnly(name, "");
      assert s[1..] == ("/" + name + ">") + rest;
      ScanWords("/" + name + ">", rest, depth);
    }
    hide Balanced, Lower, Tag;
  }

  lemma {:induction false} RenderElement(name: string, attributes: string, children: seq<Node>, rest: string)
    ensures Render(Element(name, attributes, children)) + rest
         == "<" + name + attributes + ">" + (RenderAll(children) + ("</" + name + ">" + rest))
  {
  }

  lemma {:induction false} DepthBack(name: string, depth: int)
    ensures DepthAfter(name, DepthAfter(name, depth, 1), -1) == depth && DepthAfter(name, depth, 1) >= depth
  {
  }

  lemma {:induction false} ScanComment(text: string, rest: string, depth: int)
    requires '<' !in text
    ensures Balanced("<!--" + text + "-->" + rest, depth) == Balanced(rest, depth)
  {
    var s, inner := "<!--" + text + "-->" + rest, "!--" + text + "-->";
    assert s[1..] == inner + rest && s[0] == '<' && s[1] == '!' && '<' !in inner;
    NoTableBody(s[1..]);
    assert Tag(s) == None;
    BalancedUnfold(s, depth);
    hide Balanced, Tag;
    ScanWords(inner, rest, depth);
  }

  lemma {:induction false} NoTableBody(s: string)
    requires s != "" && s[0] == '!'
    ensures TagBody(s) == None
  {
    if |s| >= 5 {
      assert Lower(s[..5])[0] == LowerChar('!') == '!';
      assert "table"[0] == 't';
    }
  }

  /** Inside a table, a whole element is passed at the same depth. */
  lemma {:induction false} ScanNode(n: Node, rest: string, depth: int)
    requires Proper(n) && depth >= 1
    ensures Balanced(Render(n) + rest, depth) == Balanced(rest, depth)
    decreases n, 1
  {
    match n
    case Words(text) => ScanWords(text, rest, depth);
    case Comment(text) => ScanComment(text, rest, depth);
    case Void(name, attributes) => ScanOpen(name, attributes, rest, depth);
    case Element(name, attributes, children) =>
      hide Balanced, Render, RenderAll, DepthAfter, AllProper;
      var inner := DepthAfter(name, depth, 1);
      var close := "</" + name + ">" + rest;
      RenderElement(name, attributes, children, rest);
      DepthBack(name, depth);
      ScanOpen(name, attributes, RenderAll(children) + close, depth);
      ScanNodes(children, close, inner);
      ScanClose(name, rest, inner);
  }

  lemma {:induction false} ScanNodes(nodes: seq<Node>, rest: string, depth: int)
    requires AllProper(nodes) && depth >= 1
    ensures Balanced(RenderAll(nodes) + rest, depth) == Balanced(rest, depth)
    decreases nodes, 0
  {
    hide Balanced;
    if nodes == [] {
      assert "" + rest == rest;
    } else {
      var tail := RenderAll(nodes[1..]) + rest;
      assert RenderAll(nodes) + rest == Render(nodes[0]) + tail;
      ScanNode(nodes[0], tail, depth);
      ScanNodes(nodes[1..], rest, depth);
    }
  }

  /** From the opening of a table, whatever tables are nested in it, the scan stops
      just after its own closing tag. */
  lemma {:induction false} TableExact(name: string, attributes: string, children: seq<Node>, rest: string)
    requires Proper(Element(name, attributes, children)) && Lower(name) == "table"
    ensures Balanced(Render(Element(name, attributes, children)) + rest, 0) == Some(rest)
  {
    hide Balanced, Lower;
    var body, close := RenderAll(children), "</" + name + ">" + rest;
    RenderElement(name, attributes, children, rest);
    ScanOpen(name, attributes, body + close, 0);
    ScanNodes(children, close, 1);
    CloseTag(name, rest);
    BalancedUnfold(close, 1);
  }

  // ----- removing the card

  /** A card: a table that shows the marker, with no marker and no table opened
      before it inside. */
  ghost predicate IsCard(name: string, attributes: string, children: seq<Node>, m: nat) {
    && Proper(Element(name, attributes, children)) && Lower(name) == "table"
    && var card := Render(Element(name, attributes, children));
       && FirstAt(card, Card.FORWARD_MARKER, m)
       && forall j: nat :: 0 < j && j + |TABLE| <= m ==> !At(Lower(card), TABLE, j)
  }

  lemma {:induction false} MarkerPlain()
    ensures '<' !in Card.FORWARD_MARKER && |Card.FORWARD_MARKER| == 19
  {
  }

  lemma {:induction false} AtMiddle(before: string, s: string, after: string, pat: string, i: nat)
    requires i + |pat| <= |s|
    ensures At(before + s + after, pat, |before| + i) <==> At(s, pat, i)
  {
    assert (before + s + after)[|before| + i..|before| + i + |pat|] == s[i..i + |pat|];
  }

  lemma {:induction false} Straddles(s: string, pat: string, j: nat, k: nat)
    requires j <= k < j + |pat| && k < |s| && s[k] !in pat
    ensures !At(s, pat, j)
  {
    if j + |pat| <= |s| { assert s[j..j + |pat|][k - j] == s[k]; }
  }

  /** The marker is found inside the card: it cannot straddle the card's first
      character. */
  lemma {:induction false} MarkerFound(before: string, card: string, after: string, m: nat)
    requires Lacks(before, Card.FORWARD_MARKER) && FirstAt(card, Card.FORWARD_MARKER, m) && card[0] == '<'
    ensures FirstAt(before + card + after, Card.FORWARD_MARKER, |before| + m)
  {
    MarkerPlain();
    var marker, html := Card.FORWARD_MARKER, before + card + after;
    AtMiddle(before, card, after, marker, m);
    forall j: nat | j < |before| + m ensures !At(html, marker, j) {
      if j >= |before| {
        AtMiddle(before, card, after, marker, j - |before|);
      } else if j + |marker| <= |before| {
        assert html[j..j + |marker|] == before[j..j + |marker|];
        assert !At(before, marker, j);
      } else {
        Straddles(html, marker, j, |before|);
      }
    }
  }

  lemma {:induction false} StartFound(before: string, card: string, after: string, m: nat)
    requires m >= |TABLE| && m <= |card| && At(Lower(card), TABLE, 0)
    requires forall j: nat :: 0 < j && j + |TABLE| <= m ==> !At(Lower(card), TABLE, j)
    ensures LastAt(Lower(before + card + after), TABLE, |before| + m, |before|)
  {
    LowerConcat(before + card, after);
    LowerConcat(before, card);
    assert |Lower(before)| == |before| && |Lower(card)| == |card|;
    hide Lower;
    AtMiddle(Lower(before), Lower(card), Lower(after), TABLE, 0);
    forall j: nat | |before| < j && j + |TABLE| <= |before| + m ensures !At(Lower(before + card + after), TABLE, j) {
      AtMiddle(Lower(before), Lower(card), Lower(after), TABLE, j - |before|);
    }
  }

  lemma {:induction false} CardStarts(name: string, attributes: string, children: seq<Node>, m: nat)
    requires IsCard(name, attributes, children, m)
    ensures var card := Render(Element(name, attributes, children));
            m >= |TABLE| && m <= |card| && card[0] == '<' && At(Lower(card), TABLE, 0)
  {
    var card := Render(Element(name, attributes, children));
    assert Lower(name) == "table" && |name| == 5;
    assert card[0] == '<' && card[1..6] == name;
    LowerOpening(card, name);
    MarkerPlain();
    MarkerIsNotATag(card, name, m);
  }

  lemma {:induction false} LowerOpening(card: string, name: string)
    requires |card| >= 6 && card[0] == '<' && card[1..6] == name && Lower(name) == "table"
    ensures At(Lower(card), TABLE, 0)
  {
    assert card[..6] == "<" + name;
    assert Lower(card)[..6] == Lower(card[..6]);
    LowerConcat("<", name);
    assert Lower("<") == "<";
    assert TABLE == "<" + "table";
  }

  lemma {:induction false} MarkerIsNotATag(card: string, name: string, m: nat)
    requires |card| >= 6 && card[0] == '<' && card[1..6] == name && Lower(name) == "table"
    requires At(card, Card.FORWARD_MARKER, m)
    ensures m >= 6
  {
    var marker := Card.FORWARD_MARKER;
    assert marker[0] == 'F';
    assert card[m] == card[m..m + |marker|][0] == 'F';
    assert forall i :: 0 <= i < 5 ==> Lower(name)[i] != 'f' by { assert "table" == ['t', 'a', 'b', 'l', 'e']; }
    assert forall i :: 1 <= i < 6 ==> card[i] == name[i - 1];
    assert LowerChar('F') == 'f';
    forall i | 0 <= i < 5 ensures name[i] != 'F' { assert Lower(name)[i] == LowerChar(name[i]); }
  }

  lemma {:induction false} StrippedAt(html: string, at: nat, start: nat, rest: string)
    requires FirstAt(html, Card.FORWARD_MARKER, at) && LastAt(Lower(html), TABLE, at, start)
    requires Balanced(html[start..], 0) == Some(rest)
    ensures Stripped(html) == html[..start] + rest
  {
    hide Balanced, Lower, At;
  }

  /** A text that starts a table and shows the marker, and whose table ends with it, is
      what removal takes out. */
  lemma {:induction false} StripTable(before: string, card: string, after: string, m: nat)
    requires Lacks(before, Card.FORWARD_MARKER) && FirstAt(card, Card.FORWARD_MARKER, m)
    requires m >= |TABLE| && m <= |card| && card[0] == '<' && At(Lower(card), TABLE, 0)
    requires forall j: nat :: 0 < j && j + |TABLE| <= m ==> !At(Lower(card), TABLE, j)
    requires Balanced(card + after, 0) == Some(after)
    ensures Stripped(before + card + after) == before + after
  {
    hide *;
    var html := before + card + after;
    MarkerFound(before, card, after, m);
    StartFound(before, card, after, m);
    assert html[|before|..] == card + after && html[..|before|] == before;
    StrippedAt(html, |before| + m, |before|, after);
  }

  /** For any document before the card that lacks the marker and any document after it,
      removal takes out exactly the card's table, tables nested in it and all. */
  lemma {:induction false} StripExact(before: string, name: string, attributes: string, children: seq<Node>, after: string, m: nat)
    requires Lacks(before, Card.FORWARD_MARKER) && IsCard(name, attributes, children, m)
    ensures Stripped(before + Render(Element(name, attributes, children)) + after) == before + after
  {
    hide Render, Balanced, Lower, Stripped, Proper, At, Lacks;
    CardStarts(name, attributes, children, m);
    TableExact(name, attributes, children, after);
    StripTable(before, Render(Element(name, attributes, children)), after, m);
  }

  /** The last `<table` before the first marker. */
  ghost predicate CardAt(html: string, start: nat) {
    start <= |html| && exists at :: FirstAt(html, Card.FORWARD_MARKER, at) && LastAt(Lower(html), TABLE, at, start)
  }

  lemma {:induction false} OneStart(html: string, at: nat, start: nat, start': nat)
    requires FirstAt(html, Card.FORWARD_MARKER, at) && LastAt(Lower(html), TABLE, at, start) && CardAt(html, start')
    ensures start == start'
  {
    hide At, Lower;
    var at' :| FirstAt(html, Card.FORWARD_MARKER, at') && LastAt(Lower(html), TABLE, at', start');
    assert at == at';
  }

  /** A document is left as it is if and only if it has no marker, no table opens before
      the first one, or no tag after that opening brings the depth back to zero. */
  lemma {:induction false} UnchangedIff(html: string)
    ensures Stripped(html) == html <==> forall start: nat :: CardAt(html, start) ==> Balanced(html[start..], 0).None?
  {
    hide At, Balanced, LastAt, FirstAt, Lacks;
    match Find(html, Card.FORWARD_MARKER, 0)
    case None => NoMarker(html);
    case Some(at) =>
      match FindLast(Lower(html), TABLE, at)
      case None => NoTable(html, at);
      case Some(start) =>
        StartInside(html, at, start);
        assert CardAt(html, start);
        forall start': nat | CardAt(html, start') ensures start' == start { OneStart(html, at, start, start'); }
        if Balanced(html[start..], 0).Some? {
          BalancedShorter(html[start..]);
          assert |html[..start] + Balanced(html[start..], 0).value| < |html|;
        }
  }

  lemma {:induction false} StartInside(html: string, at: nat, start: nat)
    requires LastAt(Lower(html), TABLE, at, start)
    ensures start <= |html|
  {
    assert |Lower(html)| == |html|;
  }

  lemma {:induction false} BalancedShorter(s: string)
    ensures Balanced(s, 0).Some? ==> |Balanced(s, 0).value| < |s|
  {
  }

  lemma {:induction false} NoMarker(html: string)
    requires Lacks(html, Card.FORWARD_MARKER)
    ensures forall start: nat :: !CardAt(html, start)
  {
    hide At, Lower;
  }

  lemma {:induction false} NoTable(html: string, at: nat)
    requires FirstAt(html, Card.FORWARD_MARKER, at)
    requires forall j: nat :: j + |TABLE| <= at ==> !At(Lower(html), TABLE, j)
    ensures forall start: nat :: !CardAt(html, start)
  {
    hide At, Lower;
  }

  // ----- the card a forwarded copy opens with

  /** `html.escape(s)` */
  function Escape(s: string): (r: string)
    ensures '<' !in r && '>' !in r
  {
    if s == "" then "" else EscapeChar(s[0]) + Escape(s[1..])
  }

  function EscapeChar(c: char): (r: string)
    ensures '<' !in r && '>' !in r
  {
    match c
    case '&' => "&amp;"
    case '<' => "&lt;"
    case '>' => "&gt;"
    case '"' => "&quot;"
    case '\'' => "&#x27;"
    case _ => [c]
  }

  /** The attributes of the card's elements. */
  datatype Styles = Styles(table: string, caption: string, avatarCell: string, avatar: string, cell: string,
                           name: string, address: string, meta: string, hint: string)

  /** What the card shows; `address` is empty when it is also the name, and `meta` is
      already joined and escaped. */
  datatype Shown = Shown(initials: string, name: string, address: string, meta: string)

  function Row(cells: seq<Node>): Node { Element("tr", "", cells) }

  function Cell(attributes: string, children: seq<Node>): Node { Element("td", attributes, children) }

  function Line(attributes: string, text: string): Node { Element("div", attributes, [Words(text)]) }

  function Details(st: Styles, shown: Shown): seq<Node> {
    [Line(st.name, Escape(shown.name))]
    + (if shown.address == "" then [] else [Line(st.address, Escape(shown.address))])
    + [Line(st.meta, shown.meta)]
  }

  function Rows(st: Styles, shown: Shown): seq<Node> {
    [Row([Cell(st.caption, [Words(Card.FORWARD_MARKER)])]),
     Row([Cell(st.avatarCell, [Line(st.avatar, Escape(shown.initials))]), Cell(st.cell, Details(st, shown))]),
     Row([Cell(st.hint, [Words(Card.REPLY_HINT)])])]
  }

  function CardOf(st: Styles, shown: Shown): string { Render(Element("table", st.table, Rows(st, shown))) }

  ghost predicate ProperAttributes(s: string) { NoBrackets(s) && (s == "" || !IsWord(s[0])) }

  /** No attribute holds an angle bracket, and no capital F comes before the
      caption. */
  ghost predicate ProperStyles(st: Styles) {
    && ProperAttributes(st.table) && ProperAttributes(st.caption) && ProperAttributes(st.avatarCell)
    && ProperAttributes(st.avatar) && ProperAttributes(st.cell) && ProperAttributes(st.name)
    && ProperAttributes(st.address) && ProperAttributes(st.meta) && ProperAttributes(st.hint)
    && 'F' !in st.table && 'F' !in st.caption
  }

  lemma {:induction false} Names()
    ensures forall name :: name in ["table", "tr", "td", "div"] ==> name != "" && forall c :: c in name ==> IsWord(c)
    ensures Lower("table") == "table"
    ensures NoBrackets(Card.FORWARD_MARKER) && NoBrackets(Card.REPLY_HINT)
  {
    assert Lower("table") == "table";
  }

  lemma {:induction false} ProperElement(name: string, attributes: string, children: seq<Node>)
    requires name in ["table", "tr", "td", "div"] && ProperAttributes(attributes) && AllProper(children)
    ensures Proper(Element(name, attributes, children)) && AllProper([Element(name, attributes, children)])
  {
    Names();
    hide IsWord;
    assert [Element(name, attributes, children)][1..] == [];
  }

  lemma {:induction false} ProperConcat(a: seq<Node>, b: seq<Node>)
    requires AllProper(a) && AllProper(b)
    ensures AllProper(a + b)
  {
    if a == [] {
      assert a + b == b;
    } else {
      assert (a + b)[1..] == a[1..] + b;
      ProperConcat(a[1..], b);
    }
  }

  lemma {:induction false} ProperWords(text: string)
    requires NoBrackets(text)
    ensures AllProper([Words(text)])
  {
    assert [Words(text)][1..] == [];
  }

  lemma {:induction false} ProperLine(attributes: string, text: string)
    requires ProperAttributes(attributes) && NoBrackets(text)
    ensures AllProper([Line(attributes, text)])
  {
    ProperWords(text);
    ProperElement("div", attributes, [Words(text)]);
  }

  lemma {:induction false} ProperDetails(st: Styles, shown: Shown)
    requires ProperStyles(st) && NoBrackets(shown.meta)
    ensures AllProper(Details(st, shown))
  {
    ProperLine(st.name, Escape(shown.name));
    ProperLine(st.address, Escape(shown.address));
    ProperLine(st.meta, shown.meta);
    hide Line, Escape;
    var first, second, third := [Line(st.name, Escape(shown.name))], [Line(st.address, Escape(shown.address))], [Line(st.meta, shown.meta)];
    ProperConcat(first, second);
    ProperConcat(first + second, third);
    ProperConcat(first, third);
    assert first + [] + third == first + third;
  }

  lemma {:induction false} ProperRow(cells: seq<Node>)
    requires AllProper(cells)
    ensures AllProper([Row(cells)])
  {
    ProperElement("tr", "", cells);
  }

  lemma {:induction false} ProperRows(st: Styles, shown: Shown)
    requires ProperStyles(st) && NoBrackets(shown.meta)
    ensures AllProper(Rows(st, shown))
  {
    Names();
    hide IsWord, Lower, Escape, NoBrackets, ProperAttributes, Details;
    NoBracketsEscape(shown.initials);
    ProperWords(Card.FORWARD_MARKER);
    ProperWords(Card.REPLY_HINT);
    ProperLine(st.avatar, Escape(shown.initials));
    ProperDetails(st, shown);
    var caption, hint := Cell(st.caption, [Words(Card.FORWARD_MARKER)]), Cell(st.hint, [Words(Card.REPLY_HINT)]);
    var avatar, details := Cell(st.avatarCell, [Line(st.avatar, Escape(shown.initials))]), Cell(st.cell, Details(st, shown));
    ProperElement("td", st.caption, [Words(Card.FORWARD_MARKER)]);
    ProperElement("td", st.hint, [Words(Card.REPLY_HINT)]);
    ProperElement("td", st.avatarCell, [Line(st.avatar, Escape(shown.initials))]);
    ProperElement("td", st.cell, Details(st, shown));
    assert Rows(st, shown) == [Row([caption])] + [Row([avatar] + [details])] + [Row([hint])] by {
      assert [avatar] + [details] == [avatar, details];
    }
    hide *;
    ProperConcat([avatar], [details]);
    ProperRow([caption]);
    ProperRow([avatar] + [details]);
    ProperRow([hint]);
    ProperConcat([Row([caption])], [Row([avatar] + [details])]);
    ProperConcat([Row([caption])] + [Row([avatar] + [details])], [Row([hint])]);
  }

  lemma {:induction false} NoBracketsEscape(s: string)
    ensures NoBrackets(Escape(s))
  {
  }

  /** What stands before the caption. */
  function Lead(st: Styles): string { "<table" + st.table + ">" + "<tr>" + ("<td" + st.caption + ">") }

  lemma {:induction false} CardLeads(st: Styles, shown: Shown) returns (rest: string)
    ensures CardOf(st, shown) == Lead(st) + Card.FORWARD_MARKER + rest
  {
    var rows := Rows(st, shown);
    var cell := Cell(st.caption, [Words(Card.FORWARD_MARKER)]);
    var more := RenderAll(rows[1..]) + "</table>";
    rest := "</td></tr>" + more;
    RenderOne(Words(Card.FORWARD_MARKER));
    RenderOne(cell);
    RenderTags("td", st.caption, [Words(Card.FORWARD_MARKER)]);
    RenderTags("tr", "", [cell]);
    RenderTags("table", st.table, rows);
    assert RenderAll(rows) == Render(rows[0]) + RenderAll(rows[1..]);
    hide Render, RenderAll;
    LeadParts(st, more);
  }

  lemma {:induction false} RenderOne(n: Node)
    ensures RenderAll([n]) == Render(n)
  {
    assert [n][1..] == [];
    assert RenderAll([n]) == Render(n) + "";
  }

  lemma {:induction false} RenderTags(name: string, attributes: string, children: seq<Node>)
    ensures Render(Element(name, attributes, children)) == "<" + name + attributes + ">" + RenderAll(children) + "</" + name + ">"
  {
  }

  lemma {:induction false} LeadParts(st: Styles, more: string)
    ensures "<" + "table" + st.table + ">"
            + (("<" + "tr" + "" + ">" + ("<" + "td" + st.caption + ">" + Card.FORWARD_MARKER + "</" + "td" + ">") + "</" + "tr" + ">") + more)
         == Lead(st) + Card.FORWARD_MARKER + ("</td></tr>" + more)
  {
  }

  lemma {:induction false} LeadChars(st: Styles)
    requires ProperStyles(st)
    ensures 'F' !in Lead(st) && 'F' == Card.FORWARD_MARKER[0]
    ensures |Lead(st)| >= 6
  {
  }

  /** The only tag before the caption that could open a table is the card's own. */
  lemma {:induction false} OneTable(st: Styles, j: nat)
    requires ProperStyles(st) && 0 < j && j + |TABLE| <= |Lead(st)|
    ensures !At(Lower(Lead(st)), TABLE, j)
  {
    var lead := Lead(st);
    var tr := |"<table" + st.table + ">"|;
    var td := tr + 4;
    TableLetters();
    if lead[j] == '<' {
      assert j == tr || j == td by {
        assert forall i :: 6 <= i < tr - 1 ==> lead[i] == st.table[i - 6] && st.table[i - 6] in st.table;
        assert forall i :: td + 3 <= i < |lead| - 1 ==> lead[i] == st.caption[i - td - 3] && st.caption[i - td - 3] in st.caption;
      }
      assert lead[tr + 2] == 'r' && lead[td + 2] == 'd';
      assert Lower(lead)[j + 2] != 'a';
    } else {
      assert Lower(lead)[j] != '<';
    }
    NotThere(Lower(lead), j);
  }

  lemma {:induction false} TableLetters()
    ensures |TABLE| == 6 && TABLE[0] == '<' && TABLE[2] == 'a'
    ensures forall c :: c != '<' ==> LowerChar(c) != '<'
  {
  }

  lemma {:induction false} NotThere(s: string, j: nat)
    requires j + 6 <= |s| && (s[j] != '<' || s[j + 2] != 'a')
    ensures !At(s, TABLE, j)
  {
    TableLetters();
    assert s[j..j + 6][0] == s[j] && s[j..j + 6][2] == s[j + 2];
  }

  lemma {:induction false} MarkerAfterLead(lead: string, rest: string)
    requires 'F' !in lead && Card.FORWARD_MARKER[0] == 'F'
    ensures FirstAt(lead + Card.FORWARD_MARKER + rest, Card.FORWARD_MARKER, |lead|)
  {
    var marker := Card.FORWARD_MARKER;
    var s := lead + marker + rest;
    assert s[|lead|..|lead| + |marker|] == marker;
    forall j: nat | j < |lead| ensures !At(s, marker, j) {
      assert s[j] == lead[j] && lead[j] in lead;
      if j + |marker| <= |s| { assert s[j..j + |marker|][0] == s[j]; }
    }
  }

  /** The card a forwarded copy opens with is one the removal finds whole. */
  lemma {:induction false} CardIsCard(st: Styles, shown: Shown)
    requires ProperStyles(st) && NoBrackets(shown.meta)
    ensures IsCard("table", st.table, Rows(st, shown), |Lead(st)|)
  {
    var rest := CardLeads(st, shown);
    var lead := Lead(st);
    LeadChars(st);
    MarkerAfterLead(lead, rest);
    ProperRows(st, shown);
    ProperElement("table", st.table, Rows(st, shown));
    Names();
    var card := CardOf(st, shown);
    assert card == lead + (Card.FORWARD_MARKER + rest);
    LowerConcat(lead, Card.FORWARD_MARKER + rest);
    forall j: nat | 0 < j && j + |TABLE| <= |lead| ensures !At(Lower(card), TABLE, j) {
      OneTable(st, j);
      AtFront(Lower(lead), Lower(Card.FORWARD_MARKER + rest), TABLE, j);
    }
    assert card == Render(Element("table", st.table, Rows(st, shown)));
    hide Render, Lower, Lead, Rows, Proper;
  }

  lemma {:induction false} AtFront(a: string, b: string, pat: string, j: nat)
    requires j + |pat| <= |a|
    ensures At(a + b, pat, j) <==> At(a, pat, j)
  {
    assert (a + b)[j..j + |pat|] == a[j..j + |pat|];
  }

  /** A forwarded document: the card goes in after the `<body>` tag, or first when
      there is none. */
  function WrapHtml(original: string, body: nat, st: Styles, shown: Shown): string
    requires body <= |original|
  {
    original[..body] + CardOf(st, shown) + original[body..]
  }

  lemma {:induction false} WrapAround(original: string, body: nat, st: Styles, shown: Shown)
    requires body <= |original|
    ensures WrapHtml(original, body, st, shown)
         == original[..body] + Render(Element("table", st.table, Rows(st, shown))) + original[body..]
  {
    hide Render, Rows;
  }

  /** Stripping undoes wrapping, wherever the card went in and whatever the headers
      hold, as long as what precedes the card lacks the marker. */
  lemma {:induction false} StripUndoesWrap(original: string, body: nat, st: Styles, shown: Shown)
    requires body <= |original| && ProperStyles(st) && NoBrackets(shown.meta)
    requires Lacks(original[..body], Card.FORWARD_MARKER)
    ensures Stripped(WrapHtml(original, body, st, shown)) == original
  {
    hide *;
    CardIsCard(st, shown);
    WrapAround(original, body, st, shown);
    StripExact(original[..body], "table", st.table, Rows(st, shown), original[body..], |Lead(st)|);
    assert original[..body] + original[body..] == original;
  }

  // ----- what the card shows

  /** The texts of a document, in order. */
  function Texts(n: Node): seq<string>
    decreases n, 1
  {
    match n
    case Words(text) => [text]
    case Comment(_) => []
    case Void(_, _) => []
    case Element(_, _, children) => AllTexts(children)
  }

  function AllTexts(nodes: seq<Node>): seq<string>
    decreases nodes, 0
  {
    if nodes == [] then [] else Texts(nodes[0]) + AllTexts(nodes[1..])
  }

  /** What a reader of the document makes of the five escapes. */
  function Unescape(s: string): string {
    if s == "" then ""
    else if "&amp;" <= s then "&" + Unescape(s[5..])
    else if "&lt;" <= s then "<" + Unescape(s[4..])
    else if "&gt;" <= s then ">" + Unescape(s[4..])
    else if "&quot;" <= s then "\"" + Unescape(s[6..])
    else if "&#x27;" <= s then "'" + Unescape(s[6..])
    else [s[0]] + Unescape(s[1..])
  }

  /** A header is shown as it was written, whatever is in it. */
  lemma {:induction false} UnescapeEscape(s: string)
    ensures Unescape(Escape(s)) == s
  {
    if s != "" {
      var rest := Escape(s[1..]);
      UnescapeEscape(s[1..]);
      UnescapeFirst(s[0], rest);
      hide Unescape;
      assert s == [s[0]] + s[1..];
    }
  }

  lemma {:induction false} UnescapeFirst(c: char, rest: string)
    ensures Unescape(EscapeChar(c) + rest) == [c] + Unescape(rest)
  {
    var all := EscapeChar(c) + rest;
    hide Unescape;
    FivePrefixes(all);
    UnescapeUnfold(all);
    match c
    case '&' => assert all[..5] == "&amp;" && all[5..] == rest;
    case '<' => assert all[..4] == "&lt;" && all[4..] == rest;
    case '>' => assert all[..4] == "&gt;" && all[4..] == rest;
    case '"' => assert all[..6] == "&quot;" && all[6..] == rest;
    case '\'' => assert all[..6] == "&#x27;" && all[6..] == rest;
    case _ => assert all[0] == c && all[1..] == rest;
  }

  /** Which escape a text begins with. */
  lemma {:induction false} FivePrefixes(s: string)
    ensures "&amp;" <= s <==> |s| >= 5 && s[..5] == "&amp;"
    ensures "&lt;" <= s <==> |s| >= 4 && s[..4] == "&lt;"
    ensures "&gt;" <= s <==> |s| >= 4 && s[..4] == "&gt;"
    ensures "&quot;" <= s <==> |s| >= 6 && s[..6] == "&quot;"
    ensures "&#x27;" <= s <==> |s| >= 6 && s[..6] == "&#x27;"
    ensures "&amp;" <= s ==> s[0] == '&' && s[1] == 'a'
    ensures "&lt;" <= s ==> s[0] == '&' && s[1] == 'l'
    ensures "&gt;" <= s ==> s[0] == '&' && s[1] == 'g'
    ensures "&quot;" <= s ==> s[0] == '&' && s[1] == 'q'
    ensures "&#x27;" <= s ==> s[0] == '&' && s[1] == '#'
  {
  }

  lemma {:induction false} UnescapeUnfold(s: string)
    requires s != ""
    ensures Unescape(s) ==
      if "&amp;" <= s then "&" + Unescape(s[5..])
      else if "&lt;" <= s then "<" + Unescape(s[4..])
      else if "&gt;" <= s then ">" + Unescape(s[4..])
      else if "&quot;" <= s then "\"" + Unescape(s[6..])
      else if "&#x27;" <= s then "'" + Unescape(s[6..])
      else [s[0]] + Unescape(s[1..])
  {
  }

  lemma {:induction false} TextsOfOne(n: Node)
    ensures AllTexts([n]) == Texts(n)
  {
    assert [n][1..] == [];
  }

  lemma {:induction false} TextsConcat(a: seq<Node>, b: seq<Node>)
    ensures AllTexts(a + b) == AllTexts(a) + AllTexts(b)
  {
    if a == [] {
      assert a + b == b;
    } else {
      assert (a + b)[1..] == a[1..] + b;
      TextsConcat(a[1..], b);
      hide Texts;
    }
  }

  /** The card shows the marker, the initials, the name, the address unless it is the
      name, the other fields, and the hint. */
  lemma {:induction false} CardShows(st: Styles, shown: Shown)
    ensures Texts(Element("table", st.table, Rows(st, shown))) ==
            ["Forwarded by Lightr", Escape(shown.initials), Escape(shown.name)]
            + (if shown.address == "" then [] else [Escape(shown.address)])
            + [shown.meta, "Reply to this email to answer the sender."]
  {
    hide Escape, Texts, AllTexts;
    var caption, hint := [Words(Card.FORWARD_MARKER)], [Words(Card.REPLY_HINT)];
    var avatar, details := [Line(st.avatar, Escape(shown.initials))], Details(st, shown);
    RowTexts([Cell(st.caption, caption)]);
    RowTexts([Cell(st.hint, hint)]);
    RowTexts([Cell(st.avatarCell, avatar), Cell(st.cell, details)]);
    ElementTexts("td", st.caption, caption);
    ElementTexts("td", st.hint, hint);
    ElementTexts("td", st.avatarCell, avatar);
    ElementTexts("td", st.cell, details);
    ElementTexts("table", st.table, Rows(st, shown));
    TextsOfTwo(Cell(st.avatarCell, avatar), Cell(st.cell, details));
    WordsTexts(Card.FORWARD_MARKER);
    WordsTexts(Card.REPLY_HINT);
    LineTexts(st.avatar, Escape(shown.initials));
    DetailsTexts(st, shown);
    TextsOfOne(Cell(st.caption, caption));
    TextsOfOne(Cell(st.hint, hint));
    var rows := Rows(st, shown);
    assert rows == [rows[0]] + [rows[1], rows[2]];
    TextsConcat([rows[0]], [rows[1], rows[2]]);
    TextsOfOne(rows[0]);
    TextsOfTwo(rows[1], rows[2]);
  }

  lemma {:induction false} TextsOfTwo(a: Node, b: Node)
    ensures AllTexts([a, b]) == Texts(a) + Texts(b)
  {
    hide Texts, AllTexts;
    TextsOfOne(a);
    TextsOfOne(b);
    TextsConcat([a], [b]);
    assert [a] + [b] == [a, b];
  }

  lemma {:induction false} ElementTexts(name: string, attributes: string, children: seq<Node>)
    ensures Texts(Element(name, attributes, children)) == AllTexts(children)
  {
  }

  lemma {:induction false} RowTexts(cells: seq<Node>)
    ensures Texts(Row(cells)) == AllTexts(cells)
  {
  }

  lemma {:induction false} WordsTexts(text: string)
    ensures AllTexts([Words(text)]) == [text]
  {
    TextsOfOne(Words(text));
  }

  lemma {:induction false} LineTexts(attributes: string, text: string)
    ensures Texts(Line(attributes, text)) == [text] && AllTexts([Line(attributes, text)]) == [text]
  {
    WordsTexts(text);
    TextsOfOne(Line(attributes, text));
  }

  lemma {:induction false} DetailsTexts(st: Styles, shown: Shown)
    ensures AllTexts(Details(st, shown)) ==
            [Escape(shown.name)] + (if shown.address == "" then [] else [Escape(shown.address)]) + [shown.meta]
  {
    hide Escape, Texts, AllTexts, Line;
    var name, address, meta := [Line(st.name, Escape(shown.name))], [Line(st.address, Escape(shown.address))], [Line(st.meta, shown.meta)];
    LineTexts(st.name, Escape(shown.name));
    LineTexts(st.address, Escape(shown.address));
    LineTexts(st.meta, shown.meta);
    TextsConcat(name, address);
    TextsConcat(name + address, meta);
    TextsConcat(name, meta);
    assert name + [] == name;
  }
}
