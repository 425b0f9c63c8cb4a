/** The text helpers shared by the Telegram parsers, tools/parser.py and its older copy
    OLD/parser.py: whitespace clean-up of a post, its lines, the title and place picks,
    the registration-link choice, the event and digest tests, `int()` on an id and the
    "first occurrence wins" de-duplication loop. */
module TelegramText {
  import opened Wrappers
  import opened Strings
  import Seqs
  import RuDates

  /** One extracted event (the `Event` dataclass of both parsers); times are kept as
      `datetime` values rather than their ISO text. */
  datatype Event = Event(
    channel: String,
    sourcePostId: int,
    sourcePostUrl: String,
    publishedAt: Option<RuDates.DateTime>,
    title: String,
    startAt: Option<RuDates.DateTime>,
    location: Option<String>,
    registrationUrl: Option<String>,
    rawText: String)

  // ---------------------------------------------------------------- clean_text

  const Nbsp: char := '\U{00A0}'

  predicate Lacks(s: String, c: char) {
    forall i | 0 <= i < |s| :: s[i] != c
  }

  predicate NoDoubleSpace(s: String) {
    forall i | 0 <= i < |s| - 1 :: !(s[i] == ' ' && s[i + 1] == ' ')
  }

  predicate NoTripleNewline(s: String) {
    forall i | 0 <= i < |s| - 2 :: !(s[i] == '\n' && s[i + 1] == '\n' && s[i + 2] == '\n')
  }

  /** What `clean_text` promises of its result. */
  predicate Clean(s: String) {
    Lacks(s, Nbsp) && Lacks(s, '\t') && NoDoubleSpace(s) && NoTripleNewline(s) && Trimmed(s)
  }

  /** `s.replace(" ", " ")`. */
  function ReplaceNbsp(s: String): (r: String)
    ensures |r| == |s| && Lacks(r, Nbsp)
    ensures forall i | 0 <= i < |s| :: r[i] == if s[i] == Nbsp then ' ' else s[i]
  {
    seq(|s|, i requires 0 <= i < |s| => if s[i] == Nbsp then ' ' else s[i])
  }

  predicate IsHBlank(c: char) {
    c == ' ' || c == '\t'
  }

  /** The length of the `[ \t]+` run `s` starts with. */
  function HBlankRun(s: String): (n: nat)
    ensures n <= |s| && (n < |s| ==> !IsHBlank(s[n]))
    ensures (n == 0) == (s == [] || !IsHBlank(s[0]))
    ensures forall i | 0 <= i < n :: IsHBlank(s[i])
  {
    if s != [] && IsHBlank(s[0]) then 1 + HBlankRun(s[1..]) else 0
  }

  /** `re.sub(r"[ \t]+", " ", s)`: every run of spaces and tabs becomes one space. */
  function CollapseBlanks(s: String): (r: String)
    ensures (r == []) == (s == [])
    ensures s != [] ==> r[0] == if IsHBlank(s[0]) then ' ' else s[0]
    ensures Lacks(r, '\t') && NoDoubleSpace(r)
    decreases |s|
  {
    if s == [] then []
    else if IsHBlank(s[0]) then
      var rest := CollapseBlanks(s[HBlankRun(s)..]);
      [' '] + rest
    else
      var rest := CollapseBlanks(s[1..]);
      [s[0]] + rest
  }

  /** The length of the newline run `s` starts with. */
  function NewlineRun(s: String): (n: nat)
    ensures n <= |s| && (n < |s| ==> s[n] != '\n')
    ensures (n == 0) == (s == [] || s[0] != '\n')
    ensures forall i | 0 <= i < n :: s[i] == '\n'
  {
    if s != [] && s[0] == '\n' then 1 + NewlineRun(s[1..]) else 0
  }

  /** `re.sub(r"\n{3,}", "\n\n", s)`: every run of three or more newlines becomes two. */
  function CollapseNewlines(s: String): (r: String)
    ensures (r == []) == (s == [])
    ensures s != [] ==> r[0] == s[0]
    ensures NoTripleNewline(r)
    decreases |s|
  {
    if s == [] then []
    else if s[0] == '\n' then
      var n := NewlineRun(s);
      var k := if n >= 3 then 2 else n;
      var rest := CollapseNewlines(s[n..]);
      s[..k] + rest
    else
      var rest := CollapseNewlines(s[1..]);
      [s[0]] + rest
  }

  /** Collapsing blanks removes no character but spaces and tabs. */
  lemma {:induction false} CollapseBlanksLacks(s: String, c: char)
    requires c != ' ' && Lacks(s, c)
    ensures Lacks(CollapseBlanks(s), c)
    decreases |s|
  {
    if s != [] {
      var m := if IsHBlank(s[0]) then HBlankRun(s) else 1;
      assert Lacks(s[m..], c) by {
        assert forall i | 0 <= i < |s[m..]| :: s[m..][i] == s[m + i];
      }
      CollapseBlanksLacks(s[m..], c);
      var rest := CollapseBlanks(s[m..]);
      if IsHBlank(s[0]) {
        assert CollapseBlanks(s) == [' '] + rest;
      } else {
        assert CollapseBlanks(s) == [s[0]] + rest;
      }
    }
  }

  /** Collapsing newlines only drops newlines. */
  lemma {:induction false} CollapseNewlinesLacks(s: String, c: char)
    requires Lacks(s, c)
    ensures Lacks(CollapseNewlines(s), c)
    decreases |s|
  {
    if s != [] {
      var n := NewlineRun(s);
      var m := if s[0] == '\n' then n else 1;
      var k := if s[0] != '\n' then 1 else if n >= 3 then 2 else n;
      assert Lacks(s[m..], c) by {
        assert forall i | 0 <= i < |s[m..]| :: s[m..][i] == s[m + i];
      }
      CollapseNewlinesLacks(s[m..], c);
      assert CollapseNewlines(s) == s[..k] + CollapseNewlines(s[m..]);
    }
  }

  lemma NoDoubleSpaceConcat(a: String, b: String)
    requires NoDoubleSpace(a) && NoDoubleSpace(b)
    requires a != [] && b != [] ==> !(a[|a| - 1] == ' ' && b[0] == ' ')
    ensures NoDoubleSpace(a + b)
  {
    var ab := a + b;
    forall i | 0 <= i < |ab| - 1
      ensures !(ab[i] == ' ' && ab[i + 1] == ' ')
    {
      if i + 1 < |a| {
        assert ab[i] == a[i] && ab[i + 1] == a[i + 1];
      } else if i >= |a| {
        assert ab[i] == b[i - |a|] && ab[i + 1] == b[i - |a| + 1];
      }
    }
  }

  /** Collapsing newlines creates no double space. */
  lemma {:induction false} CollapseNewlinesNoDoubleSpace(s: String)
    requires NoDoubleSpace(s)
    ensures NoDoubleSpace(CollapseNewlines(s))
    decreases |s|
  {
    if s != [] {
      var n := NewlineRun(s);
      var m := if s[0] == '\n' then n else 1;
      var k := if s[0] != '\n' then 1 else if n >= 3 then 2 else n;
      assert NoDoubleSpace(s[m..]) by {
        assert forall i | 0 <= i < |s[m..]| :: s[m..][i] == s[m + i];
      }
      CollapseNewlinesNoDoubleSpace(s[m..]);
      var rest := CollapseNewlines(s[m..]);
      assert CollapseNewlines(s) == s[..k] + rest;
      assert NoDoubleSpace(s[..k]) by {
        assert forall i | 0 <= i < k :: s[..k][i] == s[i];
      }
      if s[0] != '\n' && rest != [] {
        assert rest[0] == s[1];
      }
      NoDoubleSpaceConcat(s[..k], rest);
    }
  }

  /** `clean_text` (tools/parser.py) and `_clean_text` (OLD/parser.py), which agree. */
  function CleanText(s: String): String {
    Trim(CollapseNewlines(CollapseBlanks(ReplaceNbsp(s))))
  }

  /** A slice keeps every property of `Clean` except the trimmed ends. */
  lemma SliceKeeps(s: String, i: nat, j: nat)
    requires i <= j <= |s|
    ensures Lacks(s, Nbsp) ==> Lacks(s[i..j], Nbsp)
    ensures Lacks(s, '\t') ==> Lacks(s[i..j], '\t')
    ensures NoDoubleSpace(s) ==> NoDoubleSpace(s[i..j])
    ensures NoTripleNewline(s) ==> NoTripleNewline(s[i..j])
  {
    assert forall k | 0 <= k < j - i :: s[i..j][k] == s[i + k];
  }

  /** The cleaned text has no NBSP, no tab, no double space, no run of three newlines and
      no white space at either end. */
  lemma CleanTextIsClean(s: String)
    ensures Clean(CleanText(s))
  {
    var b := CollapseBlanks(ReplaceNbsp(s));
    CollapseBlanksLacks(ReplaceNbsp(s), Nbsp);
    CollapseNewlinesLacks(b, Nbsp);
    CollapseNewlinesLacks(b, '\t');
    CollapseNewlinesNoDoubleSpace(b);
    var t := CollapseNewlines(b);
    var i, j := TrimIsSlice(t);
    SliceKeeps(t, i, j);
  }

  lemma {:induction false} CollapseBlanksKeeps(s: String)
    requires Lacks(s, '\t') && NoDoubleSpace(s)
    ensures CollapseBlanks(s) == s
    decreases |s|
  {
    if s != [] {
      assert Lacks(s[1..], '\t') && NoDoubleSpace(s[1..]) by {
        assert forall i | 0 <= i < |s[1..]| :: s[1..][i] == s[i + 1];
      }
      CollapseBlanksKeeps(s[1..]);
      if s[0] == ' ' {
        assert HBlankRun(s) == 1 by {
          assert |s| > 1 ==> !IsHBlank(s[1]);
          assert HBlankRun(s) == 1 + HBlankRun(s[1..]);
        }
      }
      assert s == [s[0]] + s[1..];
    }
  }

  lemma NewlineRunOfThree(s: String)
    ensures NewlineRun(s) >= 3 ==> s[..3] == "\n\n\n"
  {
  }

  lemma {:induction false} CollapseNewlinesKeeps(s: String)
    requires NoTripleNewline(s)
    ensures CollapseNewlines(s) == s
    decreases |s|
  {
    if s != [] {
      var n := NewlineRun(s);
      var m := if s[0] == '\n' then n else 1;
      assert NoTripleNewline(s[m..]) by {
        assert forall i | 0 <= i < |s[m..]| :: s[m..][i] == s[m + i];
      }
      CollapseNewlinesKeeps(s[m..]);
      if s[0] == '\n' {
        assert n < 3 by {
          NewlineRunOfThree(s);
          assert |s| < 3 || !(s[0] == '\n' && s[1] == '\n' && s[2] == '\n');
        }
        calc {
          CollapseNewlines(s);
          s[..n] + CollapseNewlines(s[n..]);
          s[..n] + s[n..];
          { assert s[..n] + s[n..] == s; }
          s;
        }
      } else {
        calc {
          CollapseNewlines(s);
          [s[0]] + CollapseNewlines(s[1..]);
          [s[0]] + s[1..];
          { assert [s[0]] + s[1..] == s; }
          s;
        }
      }
    }
  }

  /** A clean text is its own clean-up, so cleaning twice is cleaning once. */
  lemma CleanTextFixes(s: String)
    requires Clean(s)
    ensures CleanText(s) == s
  {
    assert ReplaceNbsp(s) == s;
    CollapseBlanksKeeps(s);
    CollapseNewlinesKeeps(s);
    TrimOfTrimmed(s);
  }

  lemma CleanTextIdempotent(s: String)
    ensures CleanText(CleanText(s)) == CleanText(s)
  {
    CleanTextIsClean(s);
    CleanTextFixes(CleanText(s));
  }

  // ---------------------------------------------------------------- lines

  /** The characters `str.splitlines()` breaks lines at. */
  predicate IsLineBreak(c: char) {
    c == '\n' || c == '\r' || c == '\U{000B}' || c == '\U{000C}' || c == '\U{001C}'
    || c == '\U{001D}' || c == '\U{001E}' || c == '\U{0085}' || c == '\U{2028}' || c == '\U{2029}'
  }

  /** `text.splitlines()`, except that "\r\n" counts as two breaks and a final break
      leaves an empty last line: only blank lines differ, and no caller uses them. */
  function Lines(s: String): (lines: seq<String>)
    ensures |lines| >= 1
    decreases |s|
  {
    if s == [] then [[]]
    else
      var rest := Lines(s[1..]);
      if IsLineBreak(s[0]) then [[]] + rest else [[s[0]] + rest[0]] + rest[1..]
  }

  // ---------------------------------------------------------------- pick_title

  const DefaultTitle: String := "Событие"

  const TitleLimit: nat := 200

  /** `pick_title`: the first non-blank line, stripped, cut to 200 characters, or
      "Событие". */
  function PickTitle(text: String): (r: String)
    ensures |r| <= TitleLimit && r != []
  {
    var lines := TrimmedParts(Lines(text));
    Take(if lines == [] then DefaultTitle else lines[0], TitleLimit)
  }

  lemma {:induction false} TrimmedPartsFirst(parts: seq<String>, k: nat)
    requires k < |parts| && !IsBlank(parts[k])
    requires forall j | 0 <= j < k :: IsBlank(parts[j])
    ensures TrimmedParts(parts) != [] && TrimmedParts(parts)[0] == Trim(parts[k])
    decreases k
  {
    if k > 0 {
      assert IsBlank(parts[0]);
      TrimmedPartsFirst(parts[1..], k - 1);
    }
  }

  lemma {:induction false} TrimmedPartsNone(parts: seq<String>)
    requires forall j | 0 <= j < |parts| :: IsBlank(parts[j])
    ensures TrimmedParts(parts) == []
    decreases |parts|
  {
    if parts != [] {
      assert IsBlank(parts[0]);
      TrimmedPartsNone(parts[1..]);
    }
  }

  /** The title is the first non-blank line, stripped and cut to 200 characters. */
  lemma PickTitleFirstLine(text: String, k: nat)
    requires k < |Lines(text)| && !IsBlank(Lines(text)[k])
    requires forall j | 0 <= j < k :: IsBlank(Lines(text)[j])
    ensures PickTitle(text) == Take(Trim(Lines(text)[k]), TitleLimit)
  {
    TrimmedPartsFirst(Lines(text), k);
  }

  /** A text without a non-blank line is titled "Событие". */
  lemma PickTitleDefault(text: String)
    requires forall j | 0 <= j < |Lines(text)| :: IsBlank(Lines(text)[j])
    ensures PickTitle(text) == DefaultTitle
  {
    TrimmedPartsNone(Lines(text));
  }

  // ---------------------------------------------------------------- pick_location

  /** `\w`: Latin and Cyrillic letters, digits and the underscore. */
  predicate IsWordChar(c: char) {
    ('a' <= c <= 'z') || ('A' <= c <= 'Z') || ('0' <= c <= '9') || c == '_'
    || ('\U{0400}' <= c <= '\U{04FF}')
  }

  const PlaceWord: String := "место"

  /** `(?i)\bместо\b\s*[:\-]\s*(.+)$` tried at `p` of a stripped line: where the text
      after the separator starts. `\s*` cannot give back spaces to find a separator, the
      second `\b` holds because a separator or a space follows the word, and `(.+)$`
      needs one character after the separator. */
  function CaptureAt(t: String, p: nat): (c: Option<nat>)
    ensures c.Some? ==> p + |PlaceWord| < c.value < |t|
  {
    if p + |PlaceWord| <= |t| && Lower(t[p..p + |PlaceWord|]) == PlaceWord
       && (p == 0 || !IsWordChar(t[p - 1])) then
      var q := p + |PlaceWord| + SpaceCount(t, p + |PlaceWord|);
      if q + 1 < |t| && (t[q] == ':' || t[q] == '-') then Some(q + 1) else None
    else None
  }

  /** `re.search`: the capture start of the leftmost match from `p` on. */
  function CaptureFrom(t: String, p: nat): (c: Option<nat>)
    ensures c.Some? ==> c.value < |t|
    decreases |t| - p
  {
    if p >= |t| then None
    else if CaptureAt(t, p).Some? then CaptureAt(t, p)
    else CaptureFrom(t, p + 1)
  }

  lemma {:induction false} CaptureFromFirst(t: String, p: nat, k: nat)
    requires p <= k < |t| && CaptureAt(t, k).Some?
    requires forall j | p <= j < k :: CaptureAt(t, j).None?
    ensures CaptureFrom(t, p) == CaptureAt(t, k)
    decreases k - p
  {
    if p < k {
      assert CaptureAt(t, p).None?;
      CaptureFromFirst(t, p + 1, k);
    }
  }

  lemma {:induction false} CaptureFromNone(t: String, p: nat)
    ensures CaptureFrom(t, p).None? <==> forall j | p <= j < |t| :: CaptureAt(t, j).None?
    decreases |t| - p
  {
    if p < |t| {
      CaptureFromNone(t, p + 1);
    }
  }

  /** The place a stripped line names: `m.group(1).strip()` at the leftmost match. */
  function LocationInLine(t: String): (r: Option<String>)
    ensures Trimmed(t) && r.Some? ==> r.value != [] && Trimmed(r.value)
  {
    match CaptureFrom(t, 0)
    case Some(c) =>
      var rest := t[c..];
      assert Trimmed(t) ==> !IsBlank(rest) by {
        assert rest[|rest| - 1] == t[|t| - 1];
      }
      Some(Trim(rest))
    case None => None
  }

  /** A line names the place captured at its leftmost match, and none when no position
      matches. */
  lemma LocationInLineLeftmost(t: String, k: nat)
    requires k < |t| && CaptureAt(t, k).Some?
    requires forall j | 0 <= j < k :: CaptureAt(t, j).None?
    ensures LocationInLine(t) == Some(Trim(t[CaptureAt(t, k).value..]))
  {
    CaptureFromFirst(t, 0, k);
  }

  lemma LocationInLineNone(t: String)
    ensures LocationInLine(t).None? <==> forall j | 0 <= j < |t| :: CaptureAt(t, j).None?
  {
    CaptureFromNone(t, 0);
  }

  /** The line-by-line loop of `pick_location`, from line `k` on. */
  function LocationFromLine(lines: seq<String>, k: nat): (r: Option<String>)
    ensures r.Some? ==> r.value != [] && Trimmed(r.value)
    decreases |lines| - k
  {
    if k >= |lines| then None
    else
      var here := LocationInLine(Trim(lines[k]));
      if here.Some? then here else LocationFromLine(lines, k + 1)
  }

  /** `pick_location`: the place named by the first line that names one. */
  function PickLocation(text: String): (r: Option<String>)
    ensures r.Some? ==> r.value != [] && Trimmed(r.value)
  {
    LocationFromLine(Lines(text), 0)
  }

  lemma {:induction false} LocationFromLineFirst(lines: seq<String>, i: nat, k: nat)
    requires i <= k < |lines| && LocationInLine(Trim(lines[k])).Some?
    requires forall j | i <= j < k :: LocationInLine(Trim(lines[j])).None?
    ensures LocationFromLine(lines, i) == LocationInLine(Trim(lines[k]))
    decreases k - i
  {
    var here := LocationInLine(Trim(lines[i]));
    if i < k {
      assert here.None?;
      assert LocationFromLine(lines, i) == LocationFromLine(lines, i + 1);
      LocationFromLineFirst(lines, i + 1, k);
    } else {
      assert LocationFromLine(lines, i) == here;
    }
  }

  /** No line from `i` on names a place. */
  predicate NoPlaceFrom(lines: seq<String>, i: nat) {
    forall j | i <= j < |lines| :: LocationInLine(Trim(lines[j])).None?
  }

  lemma {:induction false} LocationFromLineNone(lines: seq<String>, i: nat)
    ensures LocationFromLine(lines, i).None? <==> NoPlaceFrom(lines, i)
    decreases |lines| - i
  {
    if i < |lines| {
      var here := LocationInLine(Trim(lines[i]));
      assert LocationFromLine(lines, i) == if here.Some? then here else LocationFromLine(lines, i + 1);
      LocationFromLineNone(lines, i + 1);
    }
  }

  /** The place is the one named by the first line that names one. */
  lemma PickLocationFirstLine(text: String, k: nat)
    requires k < |Lines(text)| && LocationInLine(Trim(Lines(text)[k])).Some?
    requires forall j | 0 <= j < k :: LocationInLine(Trim(Lines(text)[j])).None?
    ensures PickLocation(text) == LocationInLine(Trim(Lines(text)[k]))
  {
    LocationFromLineFirst(Lines(text), 0, k);
  }

  /** There is no place exactly when no line names one. */
  lemma PickLocationNone(text: String)
    ensures PickLocation(text).None? <==> NoPlaceFrom(Lines(text), 0)
  {
    var lines := Lines(text);
    assert PickLocation(text) == LocationFromLine(lines, 0);
    LocationFromLineNone(lines, 0);
  }

  // ---------------------------------------------------------------- links

  /** A link into Telegram itself rather than to an outside registration page. */
  predicate IsTelegramLink(href: String) {
    Contains(href, "t.me/") || IsPrefix("tg://", href)
  }

  /** `choose_registration_url` / `pick_registration_url` on the hrefs: the first one that
      leaves Telegram, else the first one, else `None`. */
  function ChooseRegistrationUrl(hrefs: seq<String>): (r: Option<String>)
    ensures r.None? <==> hrefs == []
    ensures r.Some? ==> r.value in hrefs
  {
    match Seqs.FirstAt(|hrefs|, 0, (i: nat) => if i < |hrefs| && !IsTelegramLink(hrefs[i]) then Some(i) else None)
    case Some((i, _)) => Some(hrefs[i])
    case None => if hrefs == [] then None else Some(hrefs[0])
  }

  /** An outside link wins over every Telegram link before it. */
  lemma ChooseRegistrationUrlExternal(hrefs: seq<String>, k: nat)
    requires k < |hrefs| && !IsTelegramLink(hrefs[k])
    requires forall j | 0 <= j < k :: IsTelegramLink(hrefs[j])
    ensures ChooseRegistrationUrl(hrefs) == Some(hrefs[k])
  {
    var f := (i: nat) => if i < |hrefs| && !IsTelegramLink(hrefs[i]) then Some(i) else None;
    var r := Seqs.FirstAt(|hrefs|, 0, f);
    assert f(k).Some?;
    assert r.Some?;
    assert r.value.0 == k;
  }

  /** With only Telegram links, the first link is taken. */
  lemma ChooseRegistrationUrlFallback(hrefs: seq<String>)
    requires hrefs != [] && forall j | 0 <= j < |hrefs| :: IsTelegramLink(hrefs[j])
    ensures ChooseRegistrationUrl(hrefs) == Some(hrefs[0])
  {
  }

  // ---------------------------------------------------------------- post tests

  const DigestTag: String := "#дайджест"

  const DigestHeading: String := "регистрация на события"

  const EventHashtags: seq<String> := ["#анонс", "#ивенты", DigestTag]

  const EventHintWords: seq<String> := ["регистрация", "дата", "время", "место", "встреча",
    "лекция", "мастер-класс", "воркшоп", "open talk", "ивент", "событ"]

  /** `is_eventish_post`: the lower-cased text mentions an event hashtag or hint word. */
  predicate IsEventish(text: String) {
    var low := Lower(text);
    (exists k | 0 <= k < |EventHashtags| :: Contains(low, EventHashtags[k]))
    || (exists k | 0 <= k < |EventHintWords| :: Contains(low, EventHintWords[k]))
  }

  /** The digest test of `extract_events_from_post`, given the number of links. */
  predicate IsDigest(text: String, linkCount: nat) {
    var low := Lower(text);
    Contains(low, DigestHeading) && linkCount >= 2 && Contains(low, DigestTag)
  }

  /** The tests ignore letter case. */
  lemma TestsIgnoreCase(text: String, linkCount: nat)
    ensures IsEventish(Lower(text)) == IsEventish(text)
    ensures IsDigest(Lower(text), linkCount) == IsDigest(text, linkCount)
  {
    LowerIdempotent(text);
  }

  /** Every digest counts as an event post. */
  lemma DigestIsEventish(text: String, linkCount: nat)
    ensures IsDigest(text, linkCount) ==> IsEventish(text)
  {
    if IsDigest(text, linkCount) {
      assert EventHashtags[2] == DigestTag;
    }
  }

  // ---------------------------------------------------------------- int()

  /** The body of a decimal literal: digits, with single underscores between digits. */
  predicate IntBody(b: String) {
    b != [] && IsDigit(b[0]) && IsDigit(b[|b| - 1])
    && forall i | 0 <= i < |b| :: IsDigit(b[i]) || (b[i] == '_' && i + 1 < |b| && IsDigit(b[i + 1]))
  }

  /** The value of digits with underscores, the underscores skipped. */
  function UnderscoredValue(b: String): nat
    requires forall i | 0 <= i < |b| :: IsDigit(b[i]) || b[i] == '_'
  {
    if b == [] then 0
    else if b[|b| - 1] == '_' then UnderscoredValue(b[..|b| - 1])
    else UnderscoredValue(b[..|b| - 1]) * 10 + DigitValue(b[|b| - 1])
  }

  /** An optional sign and a decimal body. */
  function ParseSigned(t: String): (r: Option<int>)
    ensures r.Some? ==> t != []
  {
    if t == [] then None
    else
      var body := if t[0] == '-' || t[0] == '+' then t[1..] else t;
      if IntBody(body) then
        var n: int := UnderscoredValue(body);
        Some(if t[0] == '-' then -n else n)
      else None
  }

  /** Python `int(s)`: surrounding white space, an optional sign and a decimal body;
      `None` where `int` raises `ValueError`. */
  function ParseInt(s: String): (r: Option<int>)
    ensures r.Some? ==> Trim(s) != []
  {
    ParseSigned(Trim(s))
  }

  lemma {:induction false} UnderscoredDigits(b: String)
    requires AllDigits(b)
    ensures UnderscoredValue(b) == DigitsValue(b)
    decreases |b|
  {
    if b != [] {
      UnderscoredDigits(b[..|b| - 1]);
    }
  }

  lemma DigitsBody(digits: String)
    requires digits != [] && AllDigits(digits)
    ensures IntBody(digits) && UnderscoredValue(digits) == DigitsValue(digits)
  {
    UnderscoredDigits(digits);
  }

  lemma ParseSignedOfString(n: int)
    ensures ParseSigned(IntToString(n)) == Some(n)
  {
    var s := IntToString(n);
    var m: nat := if n < 0 then -n else n;
    var digits := NatToString(m);
    NatToStringValue(m);
    DigitsBody(digits);
    assert IsDigit(digits[0]);
    if n < 0 {
      assert s[0] == '-' && s[1..] == digits;
      assert ParseSigned(s) == Some(-(DigitsValue(digits) as int));
    } else {
      assert s == digits;
      assert ParseSigned(s) == Some(DigitsValue(digits) as int);
    }
  }

  /** `int(str(n)) == n`. */
  lemma ParseIntOfString(n: int)
    ensures ParseInt(IntToString(n)) == Some(n)
  {
    var s := IntToString(n);
    var digits := NatToString(if n < 0 then -n else n);
    assert Trimmed(s) by {
      assert s[|s| - 1] == digits[|digits| - 1];
      assert IsDigit(s[0]) || s[0] == '-';
    }
    TrimOfTrimmed(s);
    ParseSignedOfString(n);
  }

  // ---------------------------------------------------------------- de-duplication

  /** The `seen`-set loop: keeps each element whose key has not been seen yet, in order. */
  method Dedup<T, K(==)>(xs: seq<T>, key: T -> K) returns (uniq: seq<T>)
    ensures uniq == Seqs.DedupBy(xs, key)
  {
    uniq := [];
    var seen: set<K> := {};
    var i := 0;
    while i < |xs|
      invariant 0 <= i <= |xs|
      invariant uniq == Seqs.DedupBy(xs[..i], key)
      invariant seen == Seqs.KeysOf(xs[..i], key)
    {
      assert xs[..i + 1][..i] == xs[..i];
      Seqs.KeysOfAppend(xs[..i], xs[i], key);
      assert xs[..i + 1] == xs[..i] + [xs[i]];
      if key(xs[i]) !in seen {
        uniq := uniq + [xs[i]];
        seen := seen + {key(xs[i])};
      }
      i := i + 1;
    }
    assert xs[..i] == xs;
  }
}
