/** Splitting a C++ argument list at the commas outside all brackets (`split_arguments`). */
module ArgumentSplitting {

  predicate IsOpening(c: char) {
    c in "(<[{"
  }

  predicate IsClosing(c: char) {
    c in ")>]}"
  }

  /** The characters `str.strip` removes. */
  predicate IsSpace(c: char) {
    var n := c as int;
    0x09 <= n <= 0x0d || 0x1c <= n <= 0x20 || n == 0x85 || n == 0xa0 || n == 0x1680 || 0x2000 <= n <= 0x200a ||
    n == 0x2028 || n == 0x2029 || n == 0x202f || n == 0x205f || n == 0x3000
  }

  /** Those characters one by one. */
  const WHITE_SPACE: string :=
    "\t\n\U{b}\U{c}\r\U{1c}\U{1d}\U{1e}\U{1f} \U{85}\U{a0}\U{1680}\U{2000}\U{2001}\U{2002}\U{2003}\U{2004}" +
    "\U{2005}\U{2006}\U{2007}\U{2008}\U{2009}\U{200a}\U{2028}\U{2029}\U{202f}\U{205f}\U{3000}"

  predicate IsWhite(c: char) {
    c in WHITE_SPACE
  }

  lemma IsSpaceIff(c: char)
    ensures IsSpace(c) <==> IsWhite(c)
  {
  }

  function StripLeft(s: string): (t: string)
    ensures |t| <= |s|
  {
    if s != [] && IsSpace(s[0]) then StripLeft(s[1..]) else s
  }

  function StripRight(s: string): (t: string)
    ensures |t| <= |s|
  {
    if s != [] && IsSpace(s[|s| - 1]) then StripRight(s[..|s| - 1]) else s
  }

  /** `str.strip()` */
  function Strip(s: string): string {
    StripRight(StripLeft(s))
  }

  /** How many brackets are open after `s` (closing brackets count negatively, even unmatched ones). */
  function Depth(s: string): int {
    if s == [] then 0
    else
      var c := s[|s| - 1];
      Depth(s[..|s| - 1]) + if IsOpening(c) then 1 else if IsClosing(c) then -1 else 0
  }

  /** The depth is a count of characters. */
  lemma {:induction false} DepthIsCount(s: string)
    ensures var m := multiset(s);
      Depth(s) + m[')'] + m['>'] + m[']'] + m['}'] == m['('] + m['<'] + m['['] + m['{']
  {
    if s != [] {
      var n := |s| - 1;
      assert s == s[..n] + [s[n]];
      DepthIsCount(s[..n]);
    }
  }

  // ----- Reference: the fields of a text -----

  /** No comma of `s` stands outside all brackets. */
  ghost predicate NoTopComma(s: string) {
    forall i :: 0 <= i < |s| && s[i] == ',' ==> Depth(s[..i]) != 0
  }

  /** A field that a comma may follow. */
  ghost predicate Closed(s: string) {
    NoTopComma(s) && Depth(s) == 0
  }

  /** One or more fields without top-level commas, all but the last with balanced brackets. */
  ghost predicate AreFields(fields: seq<string>) {
    && fields != []
    && (forall i :: 0 <= i < |fields| - 1 ==> Closed(fields[i]))
    && NoTopComma(fields[|fields| - 1])
  }

  function Join(fields: seq<string>): string
    requires fields != []
  {
    if |fields| == 1 then fields[0] else Join(fields[..|fields| - 1]) + "," + fields[|fields| - 1]
  }

  // ----- The loop -----

  /** What the loop has collected after `text`: finished pieces (not yet stripped) and the current one. */
  function Fields(text: string): (f: seq<string>)
    ensures f != []
  {
    if text == [] then [""]
    else
      var n := |text| - 1;
      var f := Fields(text[..n]);
      if text[n] == ',' && Depth(text[..n]) == 0 then f + [""]
      else f[..|f| - 1] + [f[|f| - 1] + [text[n]]]
  }

  function StripAll(fields: seq<string>): (t: seq<string>)
    ensures |t| == |fields|
    ensures forall i :: 0 <= i < |fields| ==> t[i] == Strip(fields[i])
  {
    if fields == [] then [] else StripAll(fields[..|fields| - 1]) + [Strip(fields[|fields| - 1])]
  }

  /** One more character: a comma outside all brackets starts a new field, anything else extends the last one. */
  lemma FieldsStep(text: string, i: nat)
    requires i < |text|
    ensures var f := Fields(text[..i]);
      Fields(text[..i + 1]) == if text[i] == ',' && Depth(text[..i]) == 0 then f + [""]
        else f[..|f| - 1] + [f[|f| - 1] + [text[i]]]
    ensures Depth(text[..i + 1]) == Depth(text[..i]) + if IsOpening(text[i]) then 1
      else if IsClosing(text[i]) then -1 else 0
  {
    assert text[..i + 1][..i] == text[..i];
  }

  /** Pieces collected so far, and the one being collected. */
  ghost predicate Collected(fields: seq<string>, arguments: seq<string>, current: string) {
    fields != [] && arguments == StripAll(fields[..|fields| - 1]) && current == fields[|fields| - 1]
  }

  lemma CollectedNext(f: seq<string>, arguments: seq<string>, current: string)
    requires Collected(f, arguments, current)
    ensures arguments + [Strip(current)] == StripAll(f)
    ensures Collected(f + [""], arguments + [Strip(current)], "")
  {
  }

  lemma CollectedMore(f: seq<string>, arguments: seq<string>, current: string, c: char)
    requires Collected(f, arguments, current)
    ensures Collected(f[..|f| - 1] + [f[|f| - 1] + [c]], arguments, current + [c])
  {
  }

  /** The stripped fields of the stripped text; an empty last field is dropped. */
  function Split(argumentText: string): seq<string> {
    var f := Fields(Strip(argumentText));
    if f[|f| - 1] == "" then StripAll(f[..|f| - 1]) else StripAll(f)
  }

  /** `split_arguments` */
  method SplitArguments(argumentText: string) returns (arguments: seq<string>)
    ensures arguments == Split(argumentText)
  {
    hide Fields, Depth, StripAll, Strip, Collected;
    var text := Strip(argumentText);
    arguments := [];
    NothingCollected(text);
    if text == "" {
      return;
    }
    var current := "";
    var depth := 0;
    var i: nat := 0;
    while i < |text|
      invariant i <= |text| && depth == Depth(text[..i])
      invariant Collected(Fields(text[..i]), arguments, current)
    {
      var character := text[i];
      ghost var f := Fields(text[..i]);
      FieldsStep(text, i);
      CollectedNext(f, arguments, current);
      CollectedMore(f, arguments, current, character);
      i := i + 1;
      if IsOpening(character) {
        depth := depth + 1;
      } else if IsClosing(character) {
        depth := depth - 1;
      } else if character == ',' && depth == 0 {
        arguments := arguments + [Strip(current)];
        current := "";
        continue;
      }
      current := current + [character];
    }
    assert text[..|text|] == text;
    CollectedNext(Fields(text), arguments, current);
    CollectedIs(Fields(text), arguments, current);
    if current != "" {
      arguments := arguments + [Strip(current)];
    }
  }

  lemma NothingCollected(text: string)
    ensures Collected(Fields(text[..0]), [], "") && Depth(text[..0]) == 0
    ensures text == "" ==> Fields(text) == [""] && StripAll(Fields(text)[..0]) == []
  {
  }

  lemma CollectedIs(f: seq<string>, arguments: seq<string>, current: string)
    requires Collected(f, arguments, current)
    ensures f != [] && arguments == StripAll(f[..|f| - 1]) && current == f[|f| - 1]
  {
  }

  // ----- The fields are the only way to cut the text -----

  lemma {:induction false} DepthAppends(a: string, b: string)
    ensures Depth(a + b) == Depth(a) + Depth(b)
  {
    if b == [] {
      assert a + b == a;
    } else {
      var n := |b| - 1;
      DepthAppends(a, b[..n]);
      assert (a + b)[..|a| + n] == a + b[..n];
    }
  }

  lemma CommaIsFlat()
    ensures Depth(",") == 0
  {
  }

  /** Joining closed fields leaves no bracket open. */
  lemma {:induction false} JoinClosed(fields: seq<string>)
    requires fields != [] && forall i :: 0 <= i < |fields| ==> Closed(fields[i])
    ensures Depth(Join(fields)) == 0
  {
    if |fields| > 1 {
      var n := |fields| - 1;
      JoinClosed(fields[..n]);
      DepthAppends(Join(fields[..n]), ",");
      CommaIsFlat();
      DepthAppends(Join(fields[..n]) + ",", fields[n]);
    }
  }

  lemma NoTopCommaPrefix(s: string, n: nat)
    requires n <= |s| && NoTopComma(s)
    ensures NoTopComma(s[..n])
  {
    forall i | 0 <= i < n && s[..n][i] == ',' ensures Depth(s[..n][..i]) != 0 {
      assert s[..n][..i] == s[..i];
    }
  }

  /** Extending the last of some fields by one character. */
  lemma JoinExtended(front: seq<string>, g: string, c: char)
    ensures Join(front + [g + [c]]) == Join(front + [g]) + [c]
  {
  }

  lemma JoinNext(fields: seq<string>)
    requires fields != []
    ensures Join(fields + [""]) == Join(fields) + ","
  {
  }

  lemma FieldsAppend(text: string, c: char)
    ensures var f := Fields(text);
      Fields(text + [c]) == if c == ',' && Depth(text) == 0 then f + [""] else f[..|f| - 1] + [f[|f| - 1] + [c]]
  {
    assert (text + [c])[..|text|] == text;
  }

  /** Cutting a joined text gives the joined fields back. */
  lemma {:induction false} FieldsOfJoin(fields: seq<string>)
    requires AreFields(fields)
    ensures Fields(Join(fields)) == fields
    decreases |fields|, |fields[|fields| - 1]|
  {
    hide Depth, Join;
    var n := |fields| - 1;
    var front, g := fields[..n], fields[n];
    if g != "" {
      var m := |g| - 1;
      var shorter := front + [g[..m]];
      NoTopCommaPrefix(g, m);
      FieldsOfJoin(shorter);
      assert g == g[..m] + [g[m]];
      assert fields == front + [g];
      JoinExtended(front, g[..m], g[m]);
      DepthBeforeLast(shorter);
      FieldsAppend(Join(shorter), g[m]);
    } else if n > 0 {
      assert fields == front + [""];
      FieldsOfJoin(front);
      JoinClosed(front);
      JoinNext(front);
      FieldsAppend(Join(front), ',');
    } else {
      FieldsOfNothing(fields);
    }
  }

  lemma FieldsOfNothing(fields: seq<string>)
    requires fields == [""]
    ensures Fields(Join(fields)) == fields
  {
  }

  /** The depth at the end of a joined text is the depth of its last field. */
  lemma DepthBeforeLast(fields: seq<string>)
    requires fields != [] && forall i :: 0 <= i < |fields| - 1 ==> Closed(fields[i])
    ensures Depth(Join(fields)) == Depth(fields[|fields| - 1])
  {
    hide Depth;
    var n := |fields| - 1;
    if n > 0 {
      JoinClosed(fields[..n]);
      DepthAppends(Join(fields[..n]), ",");
      CommaIsFlat();
      DepthAppends(Join(fields[..n]) + ",", fields[n]);
    }
  }

  lemma NoTopCommaExtended(g: string, c: char)
    requires NoTopComma(g) && (c == ',' ==> Depth(g) != 0)
    ensures NoTopComma(g + [c])
  {
    forall i | 0 <= i <= |g| && (g + [c])[i] == ',' ensures Depth((g + [c])[..i]) != 0 {
      assert (g + [c])[..i] == g[..i];
      assert g[..|g|] == g;
    }
  }

  /** Every text is the join of its fields, and they are fields. */
  lemma {:induction false} FieldsJoin(text: string)
    ensures AreFields(Fields(text)) && Join(Fields(text)) == text
  {
    hide Fields, Depth, NoTopComma, Join;
    if text == [] {
      FieldsOfEmpty(text);
    } else {
      var n := |text| - 1;
      var f, c := Fields(text[..n]), text[n];
      FieldsJoin(text[..n]);
      assert text == text[..n] + [c];
      FieldsAppend(text[..n], c);
      DepthBeforeLast(f);
      var k := |f| - 1;
      assert f == f[..k] + [f[k]];
      if c == ',' && Depth(text[..n]) == 0 {
        JoinNext(f);
        EmptyHasNoComma();
      } else {
        JoinExtended(f[..k], f[k], c);
        NoTopCommaExtended(f[k], c);
      }
    }
  }

  lemma FieldsOfEmpty(text: string)
    requires text == ""
    ensures AreFields(Fields(text)) && Join(Fields(text)) == text
  {
  }

  lemma EmptyHasNoComma()
    ensures NoTopComma("")
  {
  }

  /** The fields of a text are the one way to cut it at commas into fields. */
  lemma FieldsCharacterised(text: string, fields: seq<string>)
    ensures Fields(text) == fields <==> AreFields(fields) && Join(fields) == text
  {
    FieldsJoin(text);
    if AreFields(fields) && Join(fields) == text {
      FieldsOfJoin(fields);
    }
  }

  // ----- Round trip -----

  ghost predicate AllSpace(s: string) {
    forall i :: 0 <= i < |s| ==> IsSpace(s[i])
  }

  /** A piece that stripping leaves alone. */
  ghost predicate Trimmed(s: string) {
    s != [] && !IsSpace(s[0]) && !IsSpace(s[|s| - 1])
  }

  lemma {:induction false} StripPadded(left: string, s: string, right: string)
    requires AllSpace(left) && AllSpace(right) && Trimmed(s)
    ensures Strip(left + s + right) == s
    decreases |left| + |right|
  {
    var t := left + s + right;
    if left != [] {
      assert t[1..] == left[1..] + s + right;
      StripPadded(left[1..], s, right);
    } else if right != [] {
      var n := |right| - 1;
      assert t == s + right && StripLeft(t) == t;
      assert t[..|t| - 1] == left + s + right[..n];
      assert StripLeft(t[..|t| - 1]) == t[..|t| - 1];
      StripPadded(left, s, right[..n]);
    } else {
      assert t == s;
    }
  }

  lemma {:induction false} StripAllSpace(s: string)
    requires AllSpace(s)
    ensures Strip(s) == ""
  {
    if s != [] {
      StripAllSpace(s[1..]);
    }
  }

  ghost predicate Around(left: string, t: string, right: string, s: string) {
    s == left + t + right && AllSpace(left) && AllSpace(right)
  }

  lemma {:induction false} StripLeftCuts(s: string) returns (left: string)
    ensures s == left + StripLeft(s) && AllSpace(left)
    ensures StripLeft(s) == "" || !IsSpace(StripLeft(s)[0])
  {
    if s != [] && IsSpace(s[0]) {
      left := StripLeftCuts(s[1..]);
      left := [s[0]] + left;
    } else {
      left := "";
    }
  }

  lemma {:induction false} StripRightCuts(s: string) returns (right: string)
    ensures s == StripRight(s) + right && AllSpace(right)
    ensures StripRight(s) == "" || !IsSpace(StripRight(s)[|StripRight(s)| - 1])
  {
    if s != [] && IsSpace(s[|s| - 1]) {
      right := StripRightCuts(s[..|s| - 1]);
      right := right + [s[|s| - 1]];
    } else {
      right := "";
    }
  }

  /** Stripping cuts white space off both ends until nothing is left or no more can be cut; there is no other way. */
  lemma StripIff(s: string, t: string)
    ensures Strip(s) == t <==> (t == "" || Trimmed(t)) && exists left, right :: Around(left, t, right, s)
  {
    hide IsSpace;
    var left := StripLeftCuts(s);
    var right := StripRightCuts(StripLeft(s));
    assert Around(left, Strip(s), right, s);
    if Strip(s) != "" {
      assert StripLeft(s)[0] == Strip(s)[0];
    }
    if (t == "" || Trimmed(t)) && exists l, r :: Around(l, t, r, s) {
      var l, r :| Around(l, t, r, s);
      if t == "" {
        StripAllSpace(s);
      } else {
        StripPadded(l, t, r);
      }
    }
  }

  lemma {:induction false} SpaceIsFlat(s: string)
    requires AllSpace(s)
    ensures Depth(s) == 0 && ',' !in s
  {
    if s != [] {
      SpaceIsFlat(s[..|s| - 1]);
      assert IsSpace(s[|s| - 1]);
      assert s == s[..|s| - 1] + [s[|s| - 1]];
    }
  }

  /** Padding a closed piece with white space keeps it closed. */
  lemma PaddedClosed(left: string, s: string, right: string)
    requires AllSpace(left) && AllSpace(right) && Closed(s)
    ensures Closed(left + s + right)
  {
    hide Depth, IsSpace;
    var t := left + s + right;
    SpaceIsFlat(left);
    SpaceIsFlat(right);
    DepthAppends(left, s);
    DepthAppends(left + s, right);
    assert forall i :: 0 <= i < |left| ==> t[i] == left[i];
    assert forall i :: |left| + |s| <= i < |t| ==> t[i] == right[i - |left| - |s|];
    forall i | |left| <= i < |left| + |s| && t[i] == ',' ensures Depth(t[..i]) != 0 {
      assert t[..i] == left + s[..i - |left|];
      DepthAppends(left, s[..i - |left|]);
    }
  }

  ghost predicate IsPadded(piece: string, padded: string) {
    exists left, right :: AllSpace(left) && AllSpace(right) && padded == left + piece + right
  }

  /** Each piece with any white space around it, except before the first and after the last. */
  ghost predicate Rendered(pieces: seq<string>, rendered: seq<string>) {
    && |rendered| == |pieces| > 0
    && (forall i :: 0 <= i < |pieces| ==> IsPadded(pieces[i], rendered[i]))
    && rendered[0] != "" && !IsSpace(rendered[0][0])
    && (var last := rendered[|rendered| - 1]; last != "" && !IsSpace(last[|last| - 1]))
  }

  lemma {:induction false} JoinEnds(fields: seq<string>)
    requires fields != [] && fields[0] != "" && fields[|fields| - 1] != ""
    ensures var t := Join(fields); var last := fields[|fields| - 1];
      t != "" && t[0] == fields[0][0] && t[|t| - 1] == last[|last| - 1]
  {
    if |fields| > 1 {
      JoinStart(fields[..|fields| - 1]);
    }
  }

  lemma {:induction false} JoinStart(fields: seq<string>)
    requires fields != [] && fields[0] != ""
    ensures Join(fields) != "" && Join(fields)[0] == fields[0][0]
  {
    if |fields| > 1 {
      JoinStart(fields[..|fields| - 1]);
    }
  }

  lemma RenderedFields(pieces: seq<string>, rendered: seq<string>)
    requires Rendered(pieces, rendered)
    requires forall i :: 0 <= i < |pieces| ==> Trimmed(pieces[i]) && Closed(pieces[i])
    ensures forall i :: 0 <= i < |pieces| ==> Closed(rendered[i]) && Strip(rendered[i]) == pieces[i]
  {
    hide Strip, Closed, IsSpace;
    forall i | 0 <= i < |pieces| ensures Closed(rendered[i]) && Strip(rendered[i]) == pieces[i] {
      assert IsPadded(pieces[i], rendered[i]);
      var left, right :| AllSpace(left) && AllSpace(right) && rendered[i] == left + pieces[i] + right;
      PaddedClosed(left, pieces[i], right);
      StripPadded(left, pieces[i], right);
    }
  }

  /** Splitting undoes joining: non-empty trimmed pieces with balanced brackets and no top-level comma,
      joined with commas and any white space around each of them and around the whole, come back from
      SplitArguments as they were. */
  lemma SplitUndoesJoin(pieces: seq<string>, rendered: seq<string>, before: string, after: string)
    requires Rendered(pieces, rendered) && AllSpace(before) && AllSpace(after)
    requires forall i :: 0 <= i < |pieces| ==> Trimmed(pieces[i]) && Closed(pieces[i])
    ensures Split(before + Join(rendered) + after) == pieces
  {
    hide Strip, Depth, IsSpace, Fields;
    RenderedFields(pieces, rendered);
    JoinEnds(rendered);
    StripPadded(before, Join(rendered), after);
    FieldsOfJoin(rendered);
    assert StripAll(rendered) == pieces;
  }

  // ----- Texts with balanced brackets -----

  datatype Bracket = Round | Angle | Square | Curly

  /** A text whose brackets are balanced: some without brackets, two of them one after the other, or one in a pair of
      brackets. */
  datatype Text = Plain(text: string) | Both(left: Text, right: Text) | Inside(bracket: Bracket, inner: Text)

  predicate IsText(t: Text) {
    match t
    case Plain(s) => forall c :: c in s ==> c !in "()<>[]{}"
    case Both(l, r) => IsText(l) && IsText(r)
    case Inside(_, u) => IsText(u)
  }

  function Written(t: Text): string {
    match t
    case Plain(s) => s
    case Both(l, r) => Written(l) + Written(r)
    case Inside(Round, u) => "(" + Written(u) + ")"
    case Inside(Angle, u) => "<" + Written(u) + ">"
    case Inside(Square, u) => "[" + Written(u) + "]"
    case Inside(Curly, u) => "{" + Written(u) + "}"
  }

  /** There is a comma outside all brackets. */
  predicate HasTopComma(t: Text) {
    match t
    case Plain(s) => ',' in s
    case Both(l, r) => HasTopComma(l) || HasTopComma(r)
    case Inside(_, _) => false
  }

  lemma {:induction false} PlainIsFlat(s: string)
    requires forall c :: c in s ==> c !in "()<>[]{}"
    ensures Depth(s) == 0
  {
    if s != [] {
      PlainIsFlat(s[..|s| - 1]);
      assert s[|s| - 1] in s;
    }
  }

  /** A text ends at depth 0 and never goes below it. */
  lemma {:induction false} TextIsBalanced(t: Text, i: nat)
    requires IsText(t) && i <= |Written(t)|
    ensures Depth(Written(t)) == 0 && Depth(Written(t)[..i]) >= 0
    decreases t
  {
    hide Depth;
    match t
    case Plain(s) =>
      PlainIsFlat(s);
      PlainIsFlat(s[..i]);
    case Both(l, r) =>
      var n := |Written(l)|;
      TextIsBalanced(l, if i <= n then i else n);
      TextIsBalanced(r, if i <= n then 0 else i - n);
      DepthAppends(Written(l), Written(r));
      if i <= n {
        assert Written(t)[..i] == Written(l)[..i];
      } else {
        assert Written(t)[..i] == Written(l) + Written(r)[..i - n];
        DepthAppends(Written(l), Written(r)[..i - n]);
      }
    case Inside(b, u) =>
      var w, open, close := Written(u), [Written(t)[0]], [Written(t)[|Written(u)| + 1]];
      assert Written(t) == open + w + close;
      BracketDepths(open[0], close[0]);
      TextIsBalanced(u, if i == 0 || i > |w| + 1 then 0 else i - 1);
      DepthAppends(open, w);
      DepthAppends(open + w, close);
      if i == 0 {
        PlainIsFlat(Written(t)[..0]);
      } else if i <= |w| + 1 {
        assert Written(t)[..i] == open + w[..i - 1];
        DepthAppends(open, w[..i - 1]);
      } else {
        assert Written(t)[..i] == Written(t);
      }
  }

  lemma BracketDepths(open: char, close: char)
    requires (open == '(' && close == ')') || (open == '<' && close == '>')
          || (open == '[' && close == ']') || (open == '{' && close == '}')
    ensures Depth([open]) == 1 && Depth([close]) == -1
  {
  }

  lemma NoTopCommaAppends(a: string, b: string)
    requires Depth(a) == 0
    ensures NoTopComma(a + b) <==> NoTopComma(a) && NoTopComma(b)
  {
    hide Depth;
    forall i | 0 <= i < |a| ensures (a + b)[i] == a[i] && (a + b)[..i] == a[..i] {
    }
    forall i | 0 <= i < |b| ensures (a + b)[|a| + i] == b[i] && Depth((a + b)[..|a| + i]) == Depth(b[..i]) {
      assert (a + b)[..|a| + i] == a + b[..i];
      DepthAppends(a, b[..i]);
    }
    if NoTopComma(a + b) {
      forall i | 0 <= i < |b| && b[i] == ',' ensures Depth(b[..i]) != 0 {
        assert (a + b)[|a| + i] == ',';
      }
      forall i | 0 <= i < |a| && a[i] == ',' ensures Depth(a[..i]) != 0 {
        assert (a + b)[i] == ',';
      }
    }
    if NoTopComma(a) && NoTopComma(b) {
      forall i | 0 <= i < |a + b| && (a + b)[i] == ',' ensures Depth((a + b)[..i]) != 0 {
        if i >= |a| {
          assert (a + b)[|a| + (i - |a|)] == b[i - |a|];
        }
      }
    }
  }

  /** In a text, exactly the commas outside all brackets are top-level commas: those inside a pair never split. */
  lemma {:induction false} TopCommasOfText(t: Text)
    requires IsText(t)
    ensures NoTopComma(Written(t)) <==> !HasTopComma(t)
    decreases t
  {
    hide Depth;
    match t
    case Plain(s) =>
      forall i | 0 <= i < |s| ensures Depth(s[..i]) == 0 {
        PlainIsFlat(s[..i]);
      }
    case Both(l, r) =>
      TopCommasOfText(l);
      TopCommasOfText(r);
      TextIsBalanced(l, 0);
      NoTopCommaAppends(Written(l), Written(r));
    case Inside(b, u) =>
      var w, open, close := Written(u), [Written(t)[0]], [Written(t)[|Written(u)| + 1]];
      assert Written(t) == open + w + close;
      BracketDepths(open[0], close[0]);
      forall i | 0 < i < |w| + 1 ensures Depth(Written(t)[..i]) != 0 {
        assert Written(t)[..i] == open + w[..i - 1];
        DepthAppends(open, w[..i - 1]);
        TextIsBalanced(u, i - 1);
      }
  }

  /** An argument: a text without a comma outside its brackets, neither starting nor ending in white space. */
  predicate IsArgument(t: Text) {
    && IsText(t) && !HasTopComma(t)
    && var w := Written(t); w != "" && !IsWhite(w[0]) && !IsWhite(w[|w| - 1])
  }

  lemma ArgumentIsPiece(t: Text)
    requires IsArgument(t)
    ensures Trimmed(Written(t)) && Closed(Written(t))
  {
    hide IsSpace, IsWhite;
    var w := Written(t);
    IsSpaceIff(w[0]);
    IsSpaceIff(w[|w| - 1]);
    TextIsBalanced(t, 0);
    TopCommasOfText(t);
  }

  predicate Blank(s: string) {
    forall c :: c in s ==> IsWhite(c)
  }

  lemma BlankIsSpace(s: string)
    requires Blank(s)
    ensures AllSpace(s)
  {
    hide IsSpace, IsWhite;
    forall i | 0 <= i < |s| ensures IsSpace(s[i]) {
      IsSpaceIff(s[i]);
    }
  }

  /** The arguments, a comma and any white space between one and the next. */
  function ArgumentList(arguments: seq<Text>, gaps: seq<(string, string)>): string
    requires |arguments| == |gaps| + 1
  {
    var n := |gaps|;
    if n == 0 then Written(arguments[0])
    else ArgumentList(arguments[..n], gaps[..n - 1]) + gaps[n - 1].0 + "," + gaps[n - 1].1 + Written(arguments[n])
  }

  /** Argument `i` with the white space beside it. */
  function Pad(arguments: seq<Text>, gaps: seq<(string, string)>, i: nat): string
    requires |arguments| == |gaps| + 1 && i < |arguments|
  {
    (if i == 0 then "" else gaps[i - 1].1) + Written(arguments[i]) + if i == |gaps| then "" else gaps[i].0
  }

  function Pads(arguments: seq<Text>, gaps: seq<(string, string)>): (rendered: seq<string>)
    requires |arguments| == |gaps| + 1
    ensures |rendered| == |arguments|
  {
    seq(|arguments|, i requires 0 <= i < |arguments| => Pad(arguments, gaps, i))
  }

  /** Dropping the last argument takes the white space before its comma away. */
  lemma PadsShorter(arguments: seq<Text>, gaps: seq<(string, string)>)
    requires |arguments| == |gaps| + 1 && gaps != []
    ensures var n, q := |gaps|, Pads(arguments[..|gaps|], gaps[..|gaps| - 1]);
      Pads(arguments, gaps)[..n] == q[..n - 1] + [q[n - 1] + gaps[n - 1].0]
  {
    hide Written;
    var n, p, q := |gaps|, Pads(arguments, gaps), Pads(arguments[..|gaps|], gaps[..|gaps| - 1]);
    forall i | 0 <= i < n ensures p[..n][i] == (q[..n - 1] + [q[n - 1] + gaps[n - 1].0])[i] {
      if i == n - 1 {
        assert q[i] == (if i == 0 then "" else gaps[i - 1].1) + Written(arguments[i]) + "";
      }
    }
  }

  lemma {:induction false} ListIsJoin(arguments: seq<Text>, gaps: seq<(string, string)>)
    requires |arguments| == |gaps| + 1
    ensures ArgumentList(arguments, gaps) == Join(Pads(arguments, gaps))
  {
    hide Written;
    var n := |gaps|;
    if n > 0 {
      ListIsJoin(arguments[..n], gaps[..n - 1]);
      PadsShorter(arguments, gaps);
      JoinLastExtended(Pads(arguments[..n], gaps[..n - 1]), gaps[n - 1].0);
      JoinLast(Pads(arguments, gaps));
      ListLast(ArgumentList(arguments[..n], gaps[..n - 1]), gaps[n - 1], Written(arguments[n]));
    }
  }

  lemma ListLast(list: string, gap: (string, string), last: string)
    ensures list + gap.0 + "," + gap.1 + last == (list + gap.0) + "," + (gap.1 + last + "")
  {
  }

  lemma JoinLast(p: seq<string>)
    requires |p| > 1
    ensures Join(p) == Join(p[..|p| - 1]) + "," + p[|p| - 1]
  {
  }

  lemma JoinLastExtended(q: seq<string>, s: string)
    requires q != []
    ensures Join(q[..|q| - 1] + [q[|q| - 1] + s]) == Join(q) + s
  {
    var n := |q| - 1;
    var r := q[..n] + [q[n] + s];
    if n > 0 {
      assert r[..n] == q[..n];
    }
  }

  /** A padded argument is padded with white space, none of it at the ends of the list. */
  lemma PadIsPadded(arguments: seq<Text>, gaps: seq<(string, string)>, i: nat)
    requires |arguments| == |gaps| + 1 && i < |arguments| && IsArgument(arguments[i])
    requires forall j :: 0 <= j < |gaps| ==> Blank(gaps[j].0) && Blank(gaps[j].1)
    ensures var p, w := Pad(arguments, gaps, i), Written(arguments[i]);
      && IsPadded(w, p) && p != "" && Trimmed(w)
      && (i == 0 ==> p[0] == w[0]) && (i == |gaps| ==> p[|p| - 1] == w[|w| - 1])
  {
    hide IsSpace, IsArgument, Written, Blank, AllSpace;
    ArgumentIsPiece(arguments[i]);
    var left := if i == 0 then "" else gaps[i - 1].1;
    var right := if i == |gaps| then "" else gaps[i].0;
    assert Blank("") by { NothingIsBlank(); }
    BlankIsSpace(left);
    BlankIsSpace(right);
    assert Pad(arguments, gaps, i) == left + Written(arguments[i]) + right;
  }

  lemma NothingIsBlank()
    ensures Blank("")
  {
  }

  lemma PadsAreRendered(arguments: seq<Text>, gaps: seq<(string, string)>, pieces: seq<string>)
    requires |arguments| == |gaps| + 1 == |pieces|
    requires forall i :: 0 <= i < |arguments| ==> IsArgument(arguments[i]) && pieces[i] == Written(arguments[i])
    requires forall i :: 0 <= i < |gaps| ==> Blank(gaps[i].0) && Blank(gaps[i].1)
    ensures Rendered(pieces, Pads(arguments, gaps))
  {
    hide IsSpace, IsArgument, Written, Blank, IsPadded, Pad;
    forall i | 0 <= i < |pieces| ensures IsPadded(pieces[i], Pads(arguments, gaps)[i]) {
      PadIsPadded(arguments, gaps, i);
    }
    PadIsPadded(arguments, gaps, 0);
    PadIsPadded(arguments, gaps, |gaps|);
  }

  /** SplitArguments on any list of arguments with balanced brackets gives back these arguments, whatever white space
      is around the commas and around the whole. */
  lemma SplitArgumentList(arguments: seq<Text>, gaps: seq<(string, string)>, before: string, after: string)
    requires |arguments| == |gaps| + 1
    requires forall i :: 0 <= i < |arguments| ==> IsArgument(arguments[i])
    requires forall i :: 0 <= i < |gaps| ==> Blank(gaps[i].0) && Blank(gaps[i].1)
    requires Blank(before) && Blank(after)
    ensures Split(before + ArgumentList(arguments, gaps) + after)
         == seq(|arguments|, i requires 0 <= i < |arguments| => Written(arguments[i]))
  {
    hide IsArgument, Written, Split, Rendered, Blank, ArgumentList;
    var pieces := seq(|arguments|, i requires 0 <= i < |arguments| => Written(arguments[i]));
    PadsAreRendered(arguments, gaps, pieces);
    forall i | 0 <= i < |arguments| ensures Trimmed(pieces[i]) && Closed(pieces[i]) {
      ArgumentIsPiece(arguments[i]);
    }
    BlankIsSpace(before);
    BlankIsSpace(after);
    ListIsJoin(arguments, gaps);
    SplitUndoesJoin(pieces, Pads(arguments, gaps), before, after);
  }

  /** A blank text has no arguments. */
  lemma SplitBlank(s: string)
    requires Blank(s)
    ensures Split(s) == []
  {
    BlankIsSpace(s);
    StripAllSpace(s);
  }

  lemma IsBracketIff(c: char)
    ensures c in "()<>[]{}" <==> IsOpening(c) || IsClosing(c)
  {
  }

  /** A short text without brackets. */
  lemma PlainText(s: string)
    requires forall i :: 0 <= i < |s| ==> !IsOpening(s[i]) && !IsClosing(s[i])
    ensures IsText(Plain(s))
  {
    hide IsOpening, IsClosing;
    forall c | c in s ensures c !in "()<>[]{}" {
      IsBracketIff(c);
    }
  }

  lemma StartsAndEndsDark(t: Text)
    requires IsText(t) && !HasTopComma(t)
    requires var w := Written(t); w != "" && !IsSpace(w[0]) && !IsSpace(w[|w| - 1])
    ensures IsArgument(t)
  {
    hide IsText, IsSpace, IsWhite, Written, HasTopComma;
    IsSpaceIff(Written(t)[0]);
    IsSpaceIff(Written(t)[|Written(t)| - 1]);
  }

  /** One argument with a template argument list. */
  lemma SplitTemplateArgument()
    ensures Split("M<K,V>m") == ["M<K,V>m"]
  {
    hide Split, IsArgument, ArgumentList, Blank;
    var m := Both(Plain("M"), Both(Inside(Angle, Plain("K,V")), Plain("m")));
    PlainText("M");
    PlainText("K,V");
    PlainText("m");
    assert IsText(m) && !HasTopComma(m);
    assert Written(m) == "M<K,V>m";
    StartsAndEndsDark(m);
    NothingIsBlank();
    SplitArgumentList([m], [], "", "");
    ListOfOne(m);
    assert seq(1, i requires 0 <= i < 1 => Written([m][i])) == [Written(m)];
  }

  lemma ListOfOne(m: Text)
    ensures "" + ArgumentList([m], []) + "" == Written(m)
  {
  }
}
