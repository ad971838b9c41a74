/** The wire audit's whole-word search: line by line, jumping past each rejected match, against
    the plain definition on the whole text. */
module WireAudit {
  import opened Basics
  import opened Bytes

  type Text = seq<Byte>

  predicate IsIdentByte(b: Byte) {
    || '0' as int <= b <= '9' as int
    || 'A' as int <= b <= 'Z' as int
    || 'a' as int <= b <= 'z' as int
    || b == '_' as int
  }

  /** Digits, capital and small letters, and the underscore, by their codes. */
  lemma IdentBytesAre(b: Byte)
    ensures IsIdentByte(b) <==> 48 <= b <= 57 || 65 <= b <= 90 || b == 95 || 97 <= b <= 122
  {
  }

  const LF: Byte := 10
  const CR: Byte := 13

  // ----- The plain definition

  predicate OccursAt(text: Text, name: Text, p: nat) {
    p + |name| <= |text| && text[p..p + |name|] == name
  }

  /** An occurrence with no identifier byte on either side. */
  predicate WordAt(text: Text, name: Text, p: nat) {
    && OccursAt(text, name, p)
    && (p == 0 || !IsIdentByte(text[p - 1]))
    && (p + |name| == |text| || !IsIdentByte(text[p + |name|]))
  }

  ghost predicate HasWord(text: Text, name: Text) {
    exists p: nat :: WordAt(text, name, p)
  }

  /** A word is a copy of the name with none of those bytes on either side. */
  lemma WordMeans(text: Text, name: Text, p: nat)
    ensures WordAt(text, name, p) <==>
      && p + |name| <= |text| && text[p..p + |name|] == name
      && (p > 0 ==> var b := text[p - 1]; !(48 <= b <= 57 || 65 <= b <= 90 || b == 95 || 97 <= b <= 122))
      && (p + |name| < |text| ==> var b := text[p + |name|]; !(48 <= b <= 57 || 65 <= b <= 90 || b == 95 || 97 <= b <= 122))
  {
  }

  // ----- The search as written

  /** The first occurrence at or after `from`, if there is one. */
  ghost predicate IsFirst(line: Text, name: Text, from: nat, r: Option<nat>) {
    && (forall p: nat :: from <= p && (r.Some? ==> p < r.value) ==> !OccursAt(line, name, p))
    && (r.Some? ==> from <= r.value && OccursAt(line, name, r.value))
  }

  method Find(line: Text, name: Text, from: nat) returns (r: Option<nat>)
    requires from <= |line|
    ensures IsFirst(line, name, from, r)
  {
    var p := from;
    while p + |name| <= |line|
      invariant from <= p
      invariant forall q: nat :: from <= q < p ==> !OccursAt(line, name, q)
    {
      if OccursAt(line, name, p) {
        return Some(p);
      }
      p := p + 1;
    }
    return None;
  }

  /** Rust's `lines`: split after each line feed, dropping it and one carriage return before it. */
  function Lines(text: Text): seq<Text>
    decreases |text|
  {
    if text == [] then [] else
    var n := FirstBreak(text);
    if n == |text| then [text] else
    [ChopReturn(text[..n])] + Lines(text[n + 1..])
  }

  function FirstBreak(text: Text): (n: nat)
    ensures n <= |text| && LF !in text[..n] && (n < |text| ==> text[n] == LF)
  {
    if text == [] || text[0] == LF then 0 else
    var n := 1 + FirstBreak(text[1..]);
    assert text[..n] == [text[0]] + text[1..][..n - 1];
    n
  }

  function ChopReturn(line: Text): Text {
    if line != [] && line[|line| - 1] == CR then line[..|line| - 1] else line
  }

  /** Lines end at line feeds, which are dropped together with one carriage return before them; a last line
      without one is kept as it is. */
  lemma LinesAre(line: Text, rest: Text)
    requires 10 !in line
    ensures line != [] ==> Lines(line) == [line]
    ensures Lines(line + [10] + rest) ==
      [if line != [] && line[|line| - 1] == 13 then line[..|line| - 1] else line] + Lines(rest)
  {
    var text := line + [10] + rest;
    var n := FirstBreak(text);
    assert FirstBreak(line) == |line|;
    assert forall k :: 0 <= k < n ==> text[k] in text[..n];
    assert forall k :: 0 <= k < |line| ==> text[k] == line[k] && line[k] in line;
    assert text[|line|] == LF;
    assert n == |line|;
    assert text[..n] == line && text[n + 1..] == rest;
  }

  /** Whether scanning from `from`, skipping the whole of each rejected match, meets a word. */
  ghost predicate ScanHits(line: Text, name: Text, from: nat)
    requires name != []
    decreases |line| - from
  {
    exists p: nat ::
      && IsFirst(line, name, from, Some(p))
      && (WordAt(line, name, p) || ScanHits(line, name, p + |name|))
  }

  ghost predicate Mentions(text: Text, name: Text)
    requires name != []
  {
    exists k :: 0 <= k < |Lines(text)| && ScanHits(Lines(text)[k], name, 0)
  }

  lemma ScanStep(line: Text, name: Text, from: nat, r: Option<nat>)
    requires name != [] && IsFirst(line, name, from, r)
    ensures ScanHits(line, name, from) <==>
      r.Some? && (WordAt(line, name, r.value) || ScanHits(line, name, r.value + |name|))
  {
    if p: nat :| IsFirst(line, name, from, Some(p)) {
      assert OccursAt(line, name, p);
      assert r == Some(p);
    }
  }

  method LineMentions(line: Text, name: Text) returns (r: bool)
    requires name != []
    ensures r <==> ScanHits(line, name, 0)
  {
    var from := 0;
    var found := Find(line, name, from);
    while found.Some?
      invariant from <= |line|
      invariant ScanHits(line, name, 0) <==> ScanHits(line, name, from)
      invariant IsFirst(line, name, from, found)
      decreases |line| - from, if found.Some? then 1 else 0
    {
      ScanStep(line, name, from, found);
      var start := found.value;
      var end := start + |name|;
      var beforeOk := start == 0 || !IsIdentByte(line[start - 1]);
      var afterOk := end >= |line| || !IsIdentByte(line[end]);
      if beforeOk && afterOk {
        return true;
      }
      from := if end > start + 1 then end else start + 1;
      found := Find(line, name, from);
    }
    ScanStep(line, name, from, found);
    return false;
  }

  // ----- Jumping past a rejected match

  /** Wherever the name can overlap a later copy of itself, the byte before that copy belongs to
      an identifier. Every name made of identifier bytes is of this kind. */
  ghost predicate SkipSafe(name: Text) {
    forall s :: 0 < s < |name| && name[s..] == name[..|name| - s] ==> IsIdentByte(name[s - 1])
  }

  lemma OverlapsItself(line: Text, name: Text, p: nat, q: nat)
    requires OccursAt(line, name, p) && OccursAt(line, name, q) && p < q < p + |name|
    ensures name[q - p..] == name[..|name| - (q - p)]
    ensures name[q - p - 1] == line[q - 1]
  {
    var s := q - p;
    assert name[s..] == line[q..p + |name|] by {
      assert line[p..p + |name|][s..] == line[q..p + |name|];
    }
    assert name[..|name| - s] == line[q..p + |name|] by {
      assert line[q..q + |name|][..|name| - s] == line[q..p + |name|];
    }
    assert line[p..p + |name|][s - 1] == line[q - 1];
  }

  /** After a rejected match of such a name, no word begins before its end. */
  lemma NoWordInside(line: Text, name: Text, first: nat, p: nat)
    requires SkipSafe(name) && OccursAt(line, name, first) && WordAt(line, name, p) && first < p
    ensures first + |name| <= p
  {
    if p < first + |name| {
      OverlapsItself(line, name, first, p);
    }
  }

  ghost predicate WordFrom(line: Text, name: Text, from: nat) {
    exists p: nat :: from <= p && WordAt(line, name, p)
  }

  /** So the jumps lose nothing. */
  lemma {:induction false} ScanIsSearch(line: Text, name: Text, from: nat)
    requires name != [] && SkipSafe(name)
    ensures ScanHits(line, name, from) <==> WordFrom(line, name, from)
    decreases |line| - from
  {
    var r := FirstOccurrence(line, name, from);
    ScanStep(line, name, from, r);
    if r.Some? {
      ScanIsSearch(line, name, r.value + |name|);
    }
    if p: nat :| from <= p && WordAt(line, name, p) {
      assert OccursAt(line, name, p);
      assert r.Some? && r.value <= p;
      if r.value < p {
        NoWordInside(line, name, r.value, p);
      }
    }
  }

  lemma {:induction false} FirstOccurrence(line: Text, name: Text, from: nat) returns (r: Option<nat>)
    ensures IsFirst(line, name, from, r)
    decreases |line| - from
  {
    if from + |name| > |line| {
      r := None;
    } else if OccursAt(line, name, from) {
      r := Some(from);
    } else {
      r := FirstOccurrence(line, name, from + 1);
    }
  }

  // ----- Splitting into lines

  ghost predicate NoBreaks(name: Text) {
    LF !in name && CR !in name
  }

  lemma ByteInOccurrence(text: Text, name: Text, p: nat, k: nat)
    requires OccursAt(text, name, p) && p <= k < p + |name|
    ensures text[k] in name
  {
    assert text[p..p + |name|][k - p] == text[k];
  }

  lemma SliceOfPrefix(text: Text, m: nat, a: nat, b: nat)
    requires a <= b <= m <= |text|
    ensures text[..m][a..b] == text[a..b]
  {
  }

  lemma SliceOfSuffix(text: Text, m: nat, a: nat, b: nat)
    requires m <= a <= b <= |text|
    ensures text[m..][a - m..b - m] == text[a..b]
  {
  }

  /** Cutting a text where no identifier goes on keeps the words before the cut... */
  lemma WordBefore(text: Text, name: Text, m: nat, p: nat)
    requires m <= |text| && p + |name| <= m && (m < |text| ==> !IsIdentByte(text[m]))
    ensures WordAt(text[..m], name, p) <==> WordAt(text, name, p)
  {
    SliceOfPrefix(text, m, p, p + |name|);
  }

  /** ...and the words after it. */
  lemma WordAfter(text: Text, name: Text, m: nat, p: nat)
    requires 0 < m <= p && m <= |text| && !IsIdentByte(text[m - 1])
    ensures WordAt(text[m..], name, p - m) <==> WordAt(text, name, p)
  {
    if p + |name| <= |text| {
      SliceOfSuffix(text, m, p, p + |name|);
    }
  }

  /** A word without line breaks is on one side of each of them. */
  lemma WordOnOneSide(text: Text, name: Text, m: nat, n: nat, p: nat)
    requires NoBreaks(name) && m <= n < |text| && OccursAt(text, name, p)
    requires forall k :: m <= k <= n ==> text[k] == LF || text[k] == CR
    ensures p + |name| <= m || p > n || (p >= m && name == [])
  {
    if p <= n && p + |name| > m && name != [] {
      ByteInOccurrence(text, name, p, if p <= m then m else p);
    }
  }

  /** A word of the text is a word of its first line or of what follows. */
  lemma FirstLine(text: Text, name: Text, n: nat)
    requires name != [] && NoBreaks(name) && n < |text| && text[n] == LF
    ensures HasWord(text, name) <==> HasWord(ChopReturn(text[..n]), name) || HasWord(text[n + 1..], name)
  {
    var line, rest := ChopReturn(text[..n]), text[n + 1..];
    var m := |line|;
    assert line == text[..m] && m <= n <= m + 1 && (m < n ==> text[m] == CR);
    if p: nat :| WordAt(text, name, p) {
      WordOnOneSide(text, name, m, n, p);
      if p > n {
        WordAfter(text, name, n + 1, p);
      } else {
        WordBefore(text, name, m, p);
      }
    }
    if p: nat :| WordAt(line, name, p) {
      WordBefore(text, name, m, p);
    }
    if p: nat :| WordAt(rest, name, p) {
      WordAfter(text, name, n + 1, p + n + 1);
    }
  }

  ghost predicate SomeLine(lines: seq<Text>, name: Text) {
    exists k :: 0 <= k < |lines| && HasWord(lines[k], name)
  }

  lemma SomeLineCons(line: Text, later: seq<Text>, name: Text)
    ensures SomeLine([line] + later, name) <==> HasWord(line, name) || SomeLine(later, name)
  {
    var lines := [line] + later;
    if HasWord(line, name) {
      assert lines[0] == line;
    }
    if k :| 0 <= k < |later| && HasWord(later[k], name) {
      assert lines[k + 1] == later[k];
    }
    if k :| 0 <= k < |lines| && HasWord(lines[k], name) {
      assert k > 0 ==> lines[k] == later[k - 1];
    }
  }

  lemma {:induction false} WordIsInALine(text: Text, name: Text)
    requires name != [] && NoBreaks(name)
    ensures HasWord(text, name) <==> SomeLine(Lines(text), name)
    decreases |text|
  {
    if text != [] {
      var n := FirstBreak(text);
      if n == |text| {
        SomeLineCons(text, [], name);
        assert [text] + [] == [text];
      } else {
        FirstLine(text, name, n);
        WordIsInALine(text[n + 1..], name);
        SomeLineCons(ChopReturn(text[..n]), Lines(text[n + 1..]), name);
      }
    }
  }

  /** For a safe name the line-by-line scan is the search of the whole text. */
  lemma MentionsIsSearch(text: Text, name: Text)
    requires name != [] && NoBreaks(name) && SkipSafe(name)
    ensures Mentions(text, name) <==> HasWord(text, name)
  {
    WordIsInALine(text, name);
    forall k | 0 <= k < |Lines(text)|
      ensures ScanHits(Lines(text)[k], name, 0) <==> HasWord(Lines(text)[k], name)
    {
      ScanIsSearch(Lines(text)[k], name, 0);
      WordFromStart(Lines(text)[k], name);
    }
  }

  lemma WordFromStart(line: Text, name: Text)
    ensures WordFrom(line, name, 0) <==> HasWord(line, name)
  {
    if p: nat :| WordAt(line, name, p) {
      assert 0 <= p && WordAt(line, name, p);
    }
  }

  // ----- Names the jump is wrong for

  /** An identifier byte other than `b`. */
  function OtherIdent(b: Byte): (r: Byte)
    ensures r != b && IsIdentByte(r)
  {
    if b == '_' as int then 'a' as int else '_' as int
  }

  /** A text the scan misses: the overlapping second copy is the only word in it. */
  function Missed(name: Text, s: nat): Text
    requires 0 < s < |name|
  {
    [OtherIdent(name[0])] + name[..s] + name
  }

  lemma MissedShape(name: Text, s: nat)
    requires 0 < s < |name| && name[s..] == name[..|name| - s]
    ensures
      var text := Missed(name, s);
      && |text| == 1 + s + |name| && text[0] != name[0] && IsIdentByte(text[0]) && text[s] == name[s - 1]
      && OccursAt(text, name, 1) && OccursAt(text, name, 1 + s)
  {
    var text, n := Missed(name, s), |name|;
    var first := text[1..1 + n];
    assert first == name[..s] + name[..n - s];
    assert name == name[..s] + name[s..];
  }

  lemma OneLine(text: Text)
    requires text != [] && LF !in text
    ensures Lines(text) == [text]
  {
    assert FirstBreak(text) == |text|;
  }

  lemma MissedIsMissed(name: Text, s: nat)
    requires 0 < s < |name| && name[s..] == name[..|name| - s] && !IsIdentByte(name[s - 1]) && NoBreaks(name)
    ensures HasWord(Missed(name, s), name) && !Mentions(Missed(name, s), name)
  {
    var text := Missed(name, s);
    MissedShape(name, s);
    assert WordAt(text, name, 1 + s);
    MissedByScan(text, name);
    OneLine(text);
    assert Lines(text)[0] == text;
  }

  /** The scan stops at a first copy it must reject, and nothing fits behind that one. */
  lemma MissedByScan(text: Text, name: Text)
    requires name != [] && |name| < |text| <= 2 * |name| && text[0] != name[0] && IsIdentByte(text[0])
    requires OccursAt(text, name, 1)
    ensures !ScanHits(text, name, 0)
  {
    assert text[0..|name|][0] == text[0];
    assert !OccursAt(text, name, 0);
    ScanStep(text, name, 0, Some(1));
    ScanStep(text, name, 1 + |name|, None);
  }

  /** The scan agrees with the plain definition on every text exactly for the safe names. */
  lemma AgreesIffSkipSafe(name: Text)
    requires name != [] && NoBreaks(name)
    ensures (forall text :: Mentions(text, name) <==> HasWord(text, name)) <==> SkipSafe(name)
  {
    if SkipSafe(name) {
      forall text ensures Mentions(text, name) <==> HasWord(text, name) {
        MentionsIsSearch(text, name);
      }
    } else {
      var s :| 0 < s < |name| && name[s..] == name[..|name| - s] && !IsIdentByte(name[s - 1]);
      MissedIsMissed(name, s);
    }
  }

  ghost predicate Identifier(name: Text) {
    name != [] && forall b :: b in name ==> IsIdentByte(b)
  }

  // ----- The two entry points

  method FileMentions(text: Text, name: Text) returns (r: bool)
    requires name != []
    ensures r <==> Mentions(text, name)
    ensures NoBreaks(name) && SkipSafe(name) ==> (r <==> HasWord(text, name))
    ensures Identifier(name) ==> (r <==> exists p: nat :: WordAt(text, name, p))
  {
    assert Identifier(name) ==> NoBreaks(name) && SkipSafe(name);
    if NoBreaksAndSafe(name) { MentionsIsSearch(text, name); }
    var lines := Lines(text);
    for k := 0 to |lines|
      invariant forall j :: 0 <= j < k ==> !ScanHits(lines[j], name, 0)
    {
      var hit := LineMentions(lines[k], name);
      if hit {
        return true;
      }
    }
    return false;
  }

  ghost predicate NoBreaksAndSafe(name: Text) {
    NoBreaks(name) && SkipSafe(name)
  }

  /** Some file other than the defining one has the name as a word. */
  method ReferencedOutside(file: string, name: Text, files: seq<string>, texts: seq<Text>) returns (r: bool)
    requires Identifier(name)
    ensures r <==> exists k :: 0 <= k < |files| && k < |texts| && files[k] != file && HasWord(texts[k], name)
  {
    var n := if |files| < |texts| then |files| else |texts|;
    for k := 0 to n
      invariant forall j :: 0 <= j < k && files[j] != file ==> !HasWord(texts[j], name)
    {
      if files[k] != file {
        var hit := FileMentions(texts[k], name);
        if hit {
          return true;
        }
      }
    }
    return false;
  }
}
