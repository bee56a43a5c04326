/** The string sanitizer of `backend/app/core/validator_ext.py`: control characters,
    script elements, tags, surrounding whitespace, length. */
module Sanitizer {
  import opened Text

  // ----- the stages -----

  predicate IsControl(c: char) {
    c <= '\U{8}' || c == '\U{B}' || c == '\U{C}' || '\U{E}' <= c <= '\U{1F}' || c == '\U{7F}'
  }

  function DropControl(s: string): string {
    if s == [] then []
    else if IsControl(s[0]) then DropControl(s[1..])
    else [s[0]] + DropControl(s[1..])
  }

  /** Where a match that starts at a position ends, if one starts there. */
  type Matcher = (string, nat) -> Option<nat>

  /** `pattern.sub("", s)` from position `i` on: the matches found left to right are
      dropped, everything else is kept. */
  function Sub(s: string, m: Matcher, i: nat): string
    requires i <= |s|
    decreases |s| - i
  {
    if i == |s| then []
    else
      var e := m(s, i);
      if e.Some? && i < e.value <= |s| then Sub(s, m, e.value)
      else [s[i]] + Sub(s, m, i + 1)
  }

  /** First index at or after `i` that holds `c`, or |s|. */
  function Find(s: string, c: char, i: nat): (r: nat)
    requires i <= |s|
    ensures i <= r <= |s|
    ensures forall k :: i <= k < r ==> s[k] != c
    ensures r < |s| ==> s[r] == c
    decreases |s| - i
  {
    if i == |s| || s[i] == c then i else Find(s, c, i + 1)
  }

  /** Case-insensitive match of one character against a lower-case ASCII pattern
      character, with the extra case partners of `s` and `i`. */
  predicate FoldsTo(c: char, p: char) {
    || c == p
    || ('a' <= p <= 'z' && 'A' <= c <= 'Z' && c as int - 'A' as int == p as int - 'a' as int)
    || (p == 's' && c == '\U{17F}')
    || (p == 'i' && (c == '\U{130}' || c == '\U{131}'))
  }

  predicate LiteralAt(s: string, pat: string, i: nat) {
    i + |pat| <= |s| && forall k :: 0 <= k < |pat| ==> FoldsTo(s[i + k], pat[k])
  }

  /** First index at or after `i` where the literal `pat` starts, or |s|. */
  function FindLiteral(s: string, pat: string, i: nat): (r: nat)
    requires i <= |s|
    ensures i <= r <= |s|
    ensures forall k :: i <= k < r ==> !LiteralAt(s, pat, k)
    ensures r < |s| ==> LiteralAt(s, pat, r)
    decreases |s| - i
  {
    if i == |s| || LiteralAt(s, pat, i) then i else FindLiteral(s, pat, i + 1)
  }

  /** A tag: `<`, then up to the next `>`. */
  function TagEnd(s: string, i: nat): Option<nat> {
    if i < |s| && s[i] == '<' then
      var gt := Find(s, '>', i + 1);
      if gt < |s| then Some(gt + 1) else None
    else None
  }

  /** An element: an opening literal, up to the next `>`, then up to the next closing literal,
      ignoring case. */
  function ElementEnd(s: string, open: string, close: string, i: nat): Option<nat> {
    if i < |s| && LiteralAt(s, open, i) then
      var gt := Find(s, '>', i + |open|);
      if gt == |s| then None
      else
        var c := FindLiteral(s, close, gt + 1);
        if c < |s| then Some(c + |close|) else None
    else None
  }

  const OPEN := "<script"
  const CLOSE := "</script>"

  function ScriptEnd(s: string, i: nat): Option<nat> {
    ElementEnd(s, OPEN, CLOSE, i)
  }

  /** The first `n` characters, or for a negative bound all but the last `-n`. */
  function SliceTo(s: string, n: int): string {
    if n >= |s| then s else if n >= 0 then s[..n] else if |s| + n > 0 then s[..|s| + n] else []
  }

  function Clean(s: string): string {
    var a := DropControl(s);
    var b := Sub(a, ScriptEnd, 0);
    var c := Sub(b, TagEnd, 0);
    Strip(c)
  }

  function SanitizeString(value: string, maxLength: Option<int>): string {
    var v := Clean(value);
    if maxLength.Some? && maxLength.value != 0 && |v| > maxLength.value
    then SliceTo(v, maxLength.value)
    else v
  }

  // ----- what "sanitized" means -----

  predicate NoControl(s: string) {
    forall i :: 0 <= i < |s| ==> !IsControl(s[i])
  }

  /** No `<` is followed, at any distance, by a `>`. */
  predicate NoTag(s: string) {
    forall i, j :: 0 <= i < j < |s| && s[i] == '<' ==> s[j] != '>'
  }

  /** Position `k` lies in a tag: some opening `<` at or before it has no `>` before `k`,
      and a `>` is still to come. */
  ghost predicate InTag(s: string, k: nat) {
    exists a :: OpenAt(s, a, k) && exists b :: k <= b < |s| && s[b] == '>'
  }

  /** A `<` at `a` with no `>` before `k`. */
  ghost predicate OpenAt(s: string, a: nat, k: nat) {
    a <= k && a < |s| && s[a] == '<' && forall m :: a < m < k && m < |s| ==> s[m] != '>'
  }

  /** The characters from position `i` on that lie outside every tag. */
  ghost function OutsideTags(s: string, i: nat): string
    requires i <= |s|
    decreases |s| - i
  {
    if i == |s| then [] else (if InTag(s, i) then [] else [s[i]]) + OutsideTags(s, i + 1)
  }

  /** s[i..e] is an element, in the words of the pattern: the opening literal, up to the
      next `>` at `gt`, then as little as possible up to a closing literal. */
  ghost predicate IsElement(s: string, open: string, close: string, i: nat, gt: nat, e: nat) {
    && i < |s| && LiteralAt(s, open, i)
    && i + |open| <= gt < |s| && s[gt] == '>'
    && (forall k :: i + |open| <= k < gt ==> s[k] != '>')
    && gt + |close| < e && LiteralAt(s, close, e - |close|)
    && forall k :: gt < k < e - |close| ==> !LiteralAt(s, close, k)
  }

  // ----- stage lemmas -----

  lemma {:induction false} DropControlKeeps(s: string)
    ensures NoControl(DropControl(s)) && |DropControl(s)| <= |s|
    ensures NoControl(s) <==> DropControl(s) == s
  {
    if s != [] {
      DropControlKeeps(s[1..]);
      assert s == [s[0]] + s[1..];
    }
  }

  /** Dropping control characters works character by character. */
  lemma {:induction false} DropControlIsLocal(a: string, b: string)
    ensures DropControl(a + b) == DropControl(a) + DropControl(b)
  {
    if a == [] {
      assert a + b == b;
    } else {
      assert (a + b)[1..] == a[1..] + b;
      DropControlIsLocal(a[1..], b);
    }
  }

  lemma {:induction false} SubShrinks(s: string, m: Matcher, i: nat)
    requires i <= |s|
    ensures |Sub(s, m, i)| <= |s| - i
    ensures forall k :: 0 <= k < |Sub(s, m, i)| ==> Sub(s, m, i)[k] in s[i..]
    decreases |s| - i
  {
    if i < |s| {
      var e := m(s, i);
      if e.Some? && i < e.value <= |s| {
        SubShrinks(s, m, e.value);
        assert s[i..] == s[i..e.value] + s[e.value..];
      } else {
        SubShrinks(s, m, i + 1);
        assert s[i..] == [s[i]] + s[i + 1..];
      }
    }
  }

  /** Text in which no match starts passes through. */
  lemma {:induction false} SubSkips(s: string, m: Matcher, i: nat, j: nat)
    requires i <= j <= |s|
    requires forall k: nat :: i <= k < j ==> m(s, k).None?
    ensures Sub(s, m, i) == s[i..j] + Sub(s, m, j)
    decreases j - i
  {
    if i < j {
      SubSkips(s, m, i + 1, j);
      SliceCons(s, i, j, Sub(s, m, j));
    } else {
      assert s[i..j] == [];
    }
  }

  lemma SliceCons(s: string, i: nat, j: nat, rest: string)
    requires i < j <= |s|
    ensures s[i..j] + rest == [s[i]] + (s[i + 1..j] + rest)
  {
    assert s[i..j] == [s[i]] + s[i + 1..j];
  }

  lemma TagFree(s: string)
    requires NoTag(s)
    ensures Sub(s, TagEnd, 0) == s && Sub(s, ScriptEnd, 0) == s
  {
    forall k: nat | k < |s| ensures ScriptEnd(s, k).None? {
      if LiteralAt(s, OPEN, k) {
        assert FoldsTo(s[k + 0], OPEN[0]);
      }
    }
    SubSkips(s, ScriptEnd, 0, |s|);
    SubSkips(s, TagEnd, 0, |s|);
  }

  lemma {:induction false} TagPassLeavesNoTag(s: string, i: nat)
    requires i <= |s|
    ensures NoTag(Sub(s, TagEnd, i))
    decreases |s| - i
  {
    if i < |s| {
      if TagEnd(s, i).Some? {
        TagPassLeavesNoTag(s, TagEnd(s, i).value);
      } else {
        TagPassLeavesNoTag(s, i + 1);
        SubShrinks(s, TagEnd, i + 1);
      }
    }
  }

  /** The tag stage drops exactly the characters that lie in a tag. */
  lemma TagPassIsOutsideTags(s: string)
    ensures Sub(s, TagEnd, 0) == OutsideTags(s, 0)
  {
    TagPassFrom(s, 0);
  }

  /** No tag is open at `i`. */
  ghost predicate Boundary(s: string, i: nat) {
    forall a: nat, b: nat :: OpenAt(s, a, i) && a < i <= b < |s| ==> s[b] != '>'
  }

  lemma {:induction false} TagPassFrom(s: string, i: nat)
    requires i <= |s| && Boundary(s, i)
    ensures Sub(s, TagEnd, i) == OutsideTags(s, i)
    decreases |s| - i
  {
    if i < |s| {
      if TagEnd(s, i).Some? {
        var gt := Find(s, '>', i + 1);
        var end: nat := gt + 1;
        assert forall a: nat :: OpenAt(s, a, end) ==> a == end;
        TagPassFrom(s, end);
        SkipTag(s, i, i, gt);
      } else {
        KeepOutside(s, i);
        TagPassFrom(s, i + 1);
      }
    }
  }

  lemma KeepOutside(s: string, i: nat)
    requires i < |s| && Boundary(s, i) && TagEnd(s, i).None?
    ensures !InTag(s, i) && Boundary(s, i + 1)
  {
    assert forall b :: i < b < |s| && s[i] == '<' ==> s[b] != '>';
    var j := i + 1;
    forall a: nat, b: nat | OpenAt(s, a, j) && a < j <= b < |s| ensures s[b] != '>' {
      assert OpenAt(s, a, i);
    }
  }

  lemma {:induction false} SkipTag(s: string, i: nat, k: nat, gt: nat)
    requires i < gt < |s| && i <= k <= gt + 1 && s[i] == '<' && s[gt] == '>'
    requires forall m :: i < m < gt ==> s[m] != '>'
    ensures OutsideTags(s, k) == OutsideTags(s, gt + 1)
    decreases gt + 1 - k
  {
    if k <= gt {
      assert OpenAt(s, i, k);
      assert InTag(s, k);
      SkipTag(s, i, k + 1, gt);
    }
  }

  lemma ElementEndSound(s: string, open: string, close: string, i: nat)
    requires ElementEnd(s, open, close, i).Some?
    ensures IsElement(s, open, close, i, Find(s, '>', i + |open|), ElementEnd(s, open, close, i).value)
  {
  }

  lemma ElementEndComplete(s: string, open: string, close: string, i: nat, gt: nat, e: nat)
    requires IsElement(s, open, close, i, gt, e) && close != []
    ensures ElementEnd(s, open, close, i) == Some(e)
  {
    assert gt == Find(s, '>', i + |open|);
    assert e - |close| == FindLiteral(s, close, gt + 1);
  }

  /** The script stage drops the leftmost script element, leaves what precedes it alone and
      goes on behind it; where no element starts it changes nothing. */
  lemma ScriptPassRemovesElement(s: string, i: nat, j: nat, gt: nat, e: nat)
    requires i <= j <= |s|
    requires forall k: nat, g: nat, x: nat :: i <= k < j ==> !IsElement(s, OPEN, CLOSE, k, g, x)
    ensures Sub(s, ScriptEnd, i) == s[i..j] + Sub(s, ScriptEnd, j)
    ensures IsElement(s, OPEN, CLOSE, j, gt, e) ==> j < e <= |s| && Sub(s, ScriptEnd, j) == Sub(s, ScriptEnd, e)
  {
    forall k: nat | i <= k < j ensures ScriptEnd(s, k).None? {
      if ScriptEnd(s, k).Some? {
        ElementEndSound(s, OPEN, CLOSE, k);
      }
    }
    SubSkips(s, ScriptEnd, i, j);
    if IsElement(s, OPEN, CLOSE, j, gt, e) {
      ElementEndComplete(s, OPEN, CLOSE, j, gt, e);
    }
  }

  // ----- the script stage by positions -----

  /** An element that starts at `j` reaches beyond `k`. */
  ghost predicate Covers(s: string, j: nat, k: nat) {
    exists gt: nat, e: nat :: IsElement(s, OPEN, CLOSE, j, gt, e) && k < e
  }

  /** An element starts at `i`, and not inside one that counts already. */
  ghost predicate Starts(s: string, i: nat)
    decreases i
  {
    Covers(s, i, i) && forall j: nat :: j < i && Starts(s, j) ==> !Covers(s, j, i)
  }

  ghost predicate InElement(s: string, k: nat) {
    exists j: nat :: j <= k && Starts(s, j) && Covers(s, j, k)
  }

  /** The characters from position `i` on that lie outside every element. */
  ghost function OutsideElements(s: string, i: nat): string
    requires i <= |s|
    decreases |s| - i
  {
    if i == |s| then [] else (if InElement(s, i) then [] else [s[i]]) + OutsideElements(s, i + 1)
  }

  /** No element reaches across `i`. */
  ghost predicate Between(s: string, i: nat) {
    forall j: nat :: j < i && Starts(s, j) ==> !Covers(s, j, i)
  }

  lemma CoversIsEnd(s: string, j: nat, k: nat)
    ensures Covers(s, j, k) <==> ScriptEnd(s, j).Some? && k < ScriptEnd(s, j).value
  {
    if ScriptEnd(s, j).Some? {
      ElementEndSound(s, OPEN, CLOSE, j);
    }
    if Covers(s, j, k) {
      var gt: nat, e: nat :| IsElement(s, OPEN, CLOSE, j, gt, e) && k < e;
      ElementEndComplete(s, OPEN, CLOSE, j, gt, e);
    }
  }

  /** The script stage drops exactly the characters that lie in an element. */
  lemma ScriptPassIsOutsideElements(s: string)
    ensures Sub(s, ScriptEnd, 0) == OutsideElements(s, 0)
  {
    ScriptPassFrom(s, 0);
  }

  lemma {:induction false} ScriptPassFrom(s: string, i: nat)
    requires i <= |s| && Between(s, i)
    ensures Sub(s, ScriptEnd, i) == OutsideElements(s, i)
    decreases |s| - i
  {
    if i < |s| {
      CoversIsEnd(s, i, i);
      if ScriptEnd(s, i).Some? {
        ElementEndSound(s, OPEN, CLOSE, i);
        var e := ScriptEnd(s, i).value;
        BetweenElements(s, i, e);
        SkipElement(s, i, i, e);
        ScriptPassFrom(s, e);
      } else {
        BetweenNext(s, i);
        ScriptPassFrom(s, i + 1);
      }
    }
  }

  lemma BetweenElements(s: string, i: nat, e: nat)
    requires i < e <= |s| && Between(s, i) && ScriptEnd(s, i) == Some(e)
    ensures Starts(s, i) && Between(s, e)
  {
    CoversIsEnd(s, i, i);
    forall j: nat | j < e && Starts(s, j) ensures !Covers(s, j, e) {
      CoversIsEnd(s, j, e);
      if j < i {
        CoversIsEnd(s, j, i);
      } else if j > i {
        CoversIsEnd(s, i, j);
        StartsOutside(s, i, j);
      }
    }
  }

  lemma StartsOutside(s: string, i: nat, j: nat)
    requires i < j && Starts(s, i) && Starts(s, j)
    ensures !Covers(s, i, j)
  {
  }

  lemma BetweenNext(s: string, i: nat)
    requires i < |s| && Between(s, i) && ScriptEnd(s, i).None?
    ensures !InElement(s, i) && Between(s, i + 1)
  {
    CoversIsEnd(s, i, i);
    var k := i + 1;
    forall j: nat | j < k && Starts(s, j) ensures !Covers(s, j, k) {
      CoversIsEnd(s, j, k);
      CoversIsEnd(s, j, i);
    }
  }

  lemma {:induction false} SkipElement(s: string, i: nat, k: nat, e: nat)
    requires i <= k <= e <= |s| && Starts(s, i) && ScriptEnd(s, i) == Some(e)
    ensures OutsideElements(s, k) == OutsideElements(s, e)
    decreases e - k
  {
    if k < e {
      CoversIsEnd(s, i, k);
      assert InElement(s, k);
      SkipElement(s, i, k + 1, e);
    }
  }

  // ----- the whole output -----

  /** A single character goes exactly when it is a control code other than tab, line feed and
      carriage return. */
  lemma ControlCodes(c: char)
    ensures IsControl(c) <==> (c as int < 32 && c as int != 9 && c as int != 10 && c as int != 13) || c as int == 127
    ensures DropControl([c]) == if IsControl(c) then [] else [c]
  {
    assert [c][1..] == [];
  }

  /** What the sanitizer returns: of the characters that are not control codes those outside
      script elements, of these those outside tags, stripped, and then cut at the bound. */
  lemma SanitizedOutput(s: string, n: Option<int>)
    ensures var v := Strip(OutsideTags(OutsideElements(DropControl(s), 0), 0));
            SanitizeString(s, n) ==
            if n.None? || n.value == 0 || |v| <= n.value then v
            else if n.value > 0 then v[..n.value]
            else if |v| + n.value > 0 then v[..|v| + n.value] else []
  {
    var a := DropControl(s);
    ScriptPassIsOutsideElements(a);
    TagPassIsOutsideTags(Sub(a, ScriptEnd, 0));
  }

  /** Equal up to the case of ASCII letters, `pat` being in lower case. */
  predicate InAnyCase(s: string, pat: string) {
    |s| == |pat| && forall i :: 0 <= i < |s| ==> s[i] == pat[i] || ('a' <= pat[i] <= 'z' && s[i] as int + 32 == pat[i] as int)
  }

  lemma FoundAt(pre: string, lit: string, post: string, pat: string)
    requires InAnyCase(lit, pat)
    ensures LiteralAt(pre + lit + post, pat, |pre|)
  {
    var s := pre + lit + post;
    forall k | 0 <= k < |pat| ensures FoldsTo(s[|pre| + k], pat[k]) {
      assert s[|pre| + k] == lit[k];
    }
  }

  /** A script element, written in any case and with any attributes, goes with all of its
      text. */
  lemma ScriptTextIsRemoved(pre: string, open: string, attributes: string, body: string, close: string, post: string)
    requires InAnyCase(open, "<script") && InAnyCase(close, "</script>") && '>' !in attributes
    requires '<' !in pre && '<' !in body && '<' !in post
    requires NoControl(pre + (open + attributes + ">" + body + close) + post)
    ensures SanitizeString(pre + (open + attributes + ">" + body + close) + post, None) == Strip(pre + post)
  {
    var s := pre + (open + attributes + ">" + body + close) + post;
    DropControlKeeps(s);
    ElementHere(s, pre, open, attributes, body, close, post);
    OneElement(s, pre, open + attributes + ">" + body + close, post, |pre| + |open| + |attributes|);
    assert NoTag(pre + post);
    TagFree(pre + post);
  }

  lemma OneElement(s: string, pre: string, element: string, post: string, gt: nat)
    requires s == pre + element + post && '<' !in pre && '<' !in post
    requires IsElement(s, OPEN, CLOSE, |pre|, gt, |pre| + |element|)
    ensures Sub(s, ScriptEnd, 0) == pre + post
  {
    var i, e := |pre|, |pre| + |element|;
    assert s[..i] == pre && s[e..] == post;
    ElementEndComplete(s, OPEN, CLOSE, i, gt, e);
    SkipsOutside(s, 0, i);
    SkipsOutside(s, e, |s|);
  }

  lemma SkipsOutside(s: string, i: nat, j: nat)
    requires i <= j <= |s| && '<' !in s[i..j]
    ensures Sub(s, ScriptEnd, i) == s[i..j] + Sub(s, ScriptEnd, j)
  {
    forall k | i <= k < j ensures s[k] != '<' {
      assert s[i..j][k - i] == s[k];
    }
    NoElementIn(s, i, j);
    SubSkips(s, ScriptEnd, i, j);
  }

  lemma ElementHere(s: string, pre: string, open: string, attributes: string, body: string, close: string, post: string)
    requires InAnyCase(open, "<script") && InAnyCase(close, "</script>") && '>' !in attributes && '<' !in body
    requires s == pre + (open + attributes + ">" + body + close) + post
    ensures var gt := |pre| + |open| + |attributes|;
            IsElement(s, OPEN, CLOSE, |pre|, gt, gt + 1 + |body| + |close|)
  {
    var gt := |pre| + |open| + |attributes|;
    assert open + (attributes + ">" + body) + close == open + attributes + ">" + body + close;
    LiteralsHere(s, pre, open, attributes + ">" + body, close, post);
    assert s[gt] == '>';
    assert s[|pre| + |open|..gt] == attributes;
    forall k | |pre| + |open| <= k < gt ensures s[k] != '>' {
      assert s[k] == attributes[k - |pre| - |open|];
    }
    forall k | gt < k < gt + 1 + |body| ensures !LiteralAt(s, CLOSE, k) {
      assert s[k] == body[k - gt - 1];
      assert !FoldsTo(s[k + 0], CLOSE[0]);
    }
  }

  lemma LiteralsHere(s: string, pre: string, open: string, mid: string, close: string, post: string)
    requires InAnyCase(open, "<script") && InAnyCase(close, "</script>")
    requires s == pre + (open + mid + close) + post
    ensures LiteralAt(s, OPEN, |pre|) && LiteralAt(s, CLOSE, |pre| + |open| + |mid|)
  {
    assert s == pre + open + (mid + close + post) == (pre + open + mid) + close + post;
    FoundAt(pre, open, mid + close + post, OPEN);
    FoundAt(pre + open + mid, close, post, CLOSE);
  }

  lemma NoElementIn(s: string, i: nat, j: nat)
    requires i <= j <= |s| && forall k :: i <= k < j ==> s[k] != '<'
    ensures forall k: nat :: i <= k < j ==> ScriptEnd(s, k).None?
  {
    forall k: nat | i <= k < j ensures ScriptEnd(s, k).None? {
      assert !FoldsTo(s[k + 0], OPEN[0]);
    }
  }

  // ----- the sanitizer as a whole -----

  lemma StripKeeps(s: string)
    ensures |Strip(s)| <= |s| && Trimmed(Strip(s))
    ensures NoControl(s) ==> NoControl(Strip(s))
    ensures NoTag(s) ==> NoTag(Strip(s))
  {
    var pre, post := StripSplits(s);
    var t := Strip(s);
    forall i | 0 <= i < |t| ensures t[i] == s[|pre| + i] {
    }
  }

  lemma CleanOutput(s: string)
    ensures NoControl(Clean(s)) && NoTag(Clean(s)) && Trimmed(Clean(s))
    ensures |Clean(s)| <= |s|
  {
    var a := DropControl(s);
    var b := Sub(a, ScriptEnd, 0);
    var c := Sub(b, TagEnd, 0);
    DropControlKeeps(s);
    SubShrinks(a, ScriptEnd, 0);
    assert NoControl(b);
    SubShrinks(b, TagEnd, 0);
    assert NoControl(c);
    TagPassLeavesNoTag(b, 0);
    StripKeeps(c);
  }

  /** The untruncated sanitizer returns its input exactly when the input is already clean. */
  lemma CleanFixpoints(s: string)
    ensures Clean(s) == s <==> NoControl(s) && NoTag(s) && Trimmed(s)
  {
    CleanOutput(s);
    if NoControl(s) && NoTag(s) && Trimmed(s) {
      DropControlKeeps(s);
      TagFree(s);
      StripTrimmed(s);
    }
  }

  /** For every input and every bound: no control character, no `<` later followed by
      `>`; a positive bound is respected, and the result starts the unbounded one. */
  lemma SanitizedIsSafe(s: string, n: Option<int>)
    ensures NoControl(SanitizeString(s, n)) && NoTag(SanitizeString(s, n))
    ensures n.Some? && n.value > 0 ==> |SanitizeString(s, n)| <= n.value
    ensures SanitizeString(s, n) <= Clean(s)
  {
    CleanOutput(s);
  }

  /** Which strings the sanitizer leaves alone, with and without a bound. */
  lemma SanitizeFixpoints(s: string, n: Option<int>)
    requires n.Some? ==> n.value >= 0
    ensures SanitizeString(s, n) == s <==>
            && NoControl(s) && NoTag(s) && Trimmed(s)
            && (n.Some? && n.value > 0 ==> |s| <= n.value)
  {
    CleanOutput(s);
    CleanFixpoints(s);
  }

  lemma UnboundedIsIdempotent(s: string)
    ensures SanitizeString(SanitizeString(s, None), None) == SanitizeString(s, None)
  {
    CleanOutput(s);
    SanitizeFixpoints(Clean(s), None);
  }

  /** With a positive bound one application is final exactly when truncation did not cut
      the cleaned text just behind a whitespace character; two always are. */
  lemma BoundedSettlesInTwo(s: string, n: int)
    requires n > 0
    ensures var f := (x: string) => SanitizeString(x, Some(n));
            && f(f(f(s))) == f(f(s))
            && (f(f(s)) == f(s) <==> |Clean(s)| <= n || !IsSpace(Clean(s)[n - 1]))
  {
    var w := SanitizeString(s, Some(n));
    SanitizedIsSafe(s, Some(n));
    CleanOutput(s);
    CleanOutput(w);
    SanitizeFixpoints(w, Some(n));
    SanitizeFixpoints(SanitizeString(w, Some(n)), Some(n));
  }

  /** No bound above 1 makes the sanitizer idempotent; the bound 1 does. */
  lemma BoundedIsNotIdempotent(n: int) returns (s: string)
    requires n > 1
    ensures SanitizeString(SanitizeString(s, Some(n)), Some(n)) != SanitizeString(s, Some(n))
  {
    s := seq(n - 1, i => 'a') + [' ', 'b'];
    CleanFixpoints(s);
    BoundedSettlesInTwo(s, n);
  }

  lemma BoundOneIsIdempotent(s: string)
    ensures SanitizeString(SanitizeString(s, Some(1)), Some(1)) == SanitizeString(s, Some(1))
  {
    CleanOutput(s);
    BoundedSettlesInTwo(s, 1);
  }
}
