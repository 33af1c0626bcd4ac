/**
 Building the prompt (internal/llm/prompt.go) and taking it apart again (splitPrompt in
 internal/llm/openai.go). Strings are sequences of bytes, written as characters.
 */
module PromptSplit {

  const SYSTEM_HEADER: string := "### SYSTEM\n"

  const USER_HEADER: string := "### USER\n"

  // ------------------------------------------------------------------ searching

  /** sub stands in s at i. */
  predicate At(s: string, sub: string, i: int) {
    0 <= i <= i + |sub| <= |s| && s[i..i + |sub|] == sub
  }

  /** The first place of sub in s, or -1. */
  ghost predicate IsFirst(s: string, sub: string, r: int) {
    if r == -1 then forall i :: !At(s, sub, i)
    else At(s, sub, r) && forall i :: i < r ==> !At(s, sub, i)
  }

  function IndexFrom(s: string, sub: string, i: nat): (r: int)
    requires i <= |s| + 1
    ensures r == -1 || i <= r
    ensures (forall k :: k < i ==> !At(s, sub, k)) ==> IsFirst(s, sub, r)
    decreases |s| + 1 - i
  {
    if i + |sub| > |s| then -1
    else if At(s, sub, i) then i
    else IndexFrom(s, sub, i + 1)
  }

  function Index(s: string, sub: string): (r: int)
    ensures IsFirst(s, sub, r)
  {
    IndexFrom(s, sub, 0)
  }

  /** indexOf */
  method IndexOf(s: string, sub: string) returns (r: int)
    ensures r == Index(s, sub)
  {
    var i := 0;
    while i + |sub| <= |s|
      invariant 0 <= i <= |s| + 1 && IndexFrom(s, sub, i) == Index(s, sub)
    {
      if s[i..i + |sub|] == sub {
        return i;
      }
      i := i + 1;
    }
    return -1;
  }

  // ------------------------------------------------------------------ trimming

  predicate IsSpace(c: char) {
    c == ' ' || c == '\t' || c == '\n' || c == '\r'
  }

  /** s without its trailing white space */
  function Trimmed(s: string): (r: string)
    ensures r <= s
    ensures r == [] || !IsSpace(r[|r| - 1])
    ensures forall i :: |r| <= i < |s| ==> IsSpace(s[i])
  {
    if s != [] && IsSpace(s[|s| - 1]) then Trimmed(s[..|s| - 1]) else s
  }

  /** trimRight */
  method TrimRight(s: string) returns (r: string)
    ensures r == Trimmed(s)
  {
    hide IsSpace;
    var end := |s|;
    while end > 0 && IsSpace(s[end - 1])
      invariant 0 <= end <= |s| && Trimmed(s[..end]) == Trimmed(s)
    {
      end := end - 1;
      assert s[..end + 1][..end] == s[..end];
    }
    return s[..end];
  }

  /** Blanks, tabs and line ends are trimmed, and nothing else is. */
  lemma TrimsFour(s: string, c: char)
    ensures Trimmed(s + [c]) == if c in {' ', '\t', '\n', '\r'} then Trimmed(s) else s + [c]
  {
    assert (s + [c])[..|s|] == s;
  }

  // ------------------------------------------------------------------ splitting

  /** A slice whose bounds cross makes Go panic. */
  datatype Split = Split(system: string, user: string) | Panic

  function SplitOf(prompt: string): Split {
    var sysIdx, userIdx := Index(prompt, SYSTEM_HEADER), Index(prompt, USER_HEADER);
    if sysIdx == -1 then Split("", prompt)
    else if userIdx == -1 then Split(prompt[sysIdx + |SYSTEM_HEADER|..], "")
    else if userIdx < sysIdx + |SYSTEM_HEADER| then Panic
    else Split(Trimmed(prompt[sysIdx + |SYSTEM_HEADER|..userIdx]), prompt[userIdx + |USER_HEADER|..])
  }

  /** splitPrompt */
  method SplitPrompt(prompt: string) returns (r: Split)
    ensures r == SplitOf(prompt)
  {
    var sysIdx := IndexOf(prompt, SYSTEM_HEADER);
    var userIdx := IndexOf(prompt, USER_HEADER);
    if sysIdx == -1 {
      return Split("", prompt);
    }
    if userIdx == -1 {
      return Split(prompt[sysIdx + |SYSTEM_HEADER|..], "");
    }
    if userIdx < sysIdx + |SYSTEM_HEADER| {
      return Panic;
    }
    var system := TrimRight(prompt[sysIdx + |SYSTEM_HEADER|..userIdx]);
    r := Split(system, prompt[userIdx + |USER_HEADER|..]);
  }

  lemma Chars(s: string, sub: string, i: int)
    requires At(s, sub, i)
    ensures forall p :: i <= p < i + |sub| ==> s[p] == sub[p - i]
  {
    assert forall p :: i <= p < i + |sub| ==> s[p] == s[i..i + |sub|][p - i];
  }

  /** The two headers never overlap. */
  lemma HeadersDoNotOverlap(s: string, i: int, j: int)
    requires At(s, SYSTEM_HEADER, i) && At(s, USER_HEADER, j)
    ensures j + |USER_HEADER| <= i || i + |SYSTEM_HEADER| <= j
  {
    Chars(s, SYSTEM_HEADER, i);
    Chars(s, USER_HEADER, j);
    assert s[i] == '#' && s[j] == '#' && s[i + 3] == ' ' && s[j + 3] == ' ';
    assert s[i + 4] == 'S' && s[i + 5] == 'Y' && s[j + 4] == 'U';
    assert forall p :: i + 3 <= p < i + 11 ==> s[p] != '#';
    assert forall p :: j + 3 <= p < j + 9 ==> s[p] != '#';
  }

  /** splitPrompt panics exactly when the first user header comes before the first system header. */
  lemma PanicsOnSwappedHeaders(prompt: string)
    ensures SplitOf(prompt) == Panic <==>
              var (s, u) := (Index(prompt, SYSTEM_HEADER), Index(prompt, USER_HEADER)); s != -1 && u != -1 && u < s
  {
    var s, u := Index(prompt, SYSTEM_HEADER), Index(prompt, USER_HEADER);
    if s != -1 && u != -1 { HeadersDoNotOverlap(prompt, s, u); }
  }

  /**
   The split by what stands in the prompt: without a system header everything is the user's; without a user header
   what follows the system header is the system's; otherwise what stands between the first of each, without
   trailing white space, is the system's and what follows is the user's.
   */
  lemma SplitParts(prompt: string, s: int, u: int)
    requires IsFirst(prompt, "### SYSTEM\n", s) && s >= -1
    requires IsFirst(prompt, "### USER\n", u) && u >= -1
    ensures s == -1 ==> SplitOf(prompt) == Split("", prompt)
    ensures s != -1 && u == -1 ==> s + 11 <= |prompt| && SplitOf(prompt) == Split(prompt[s + 11..], "")
    ensures s != -1 && u > s ==>
              && s + 11 <= u && u + 9 <= |prompt|
              && SplitOf(prompt) == Split(Trimmed(prompt[s + 11..u]), prompt[u + 9..])
  {
    FirstIsUnique(prompt, SYSTEM_HEADER, s);
    FirstIsUnique(prompt, USER_HEADER, u);
    if s != -1 && u != -1 { HeadersDoNotOverlap(prompt, s, u); }
    hide Index;
    hide Trimmed;
  }

  /** Such a prompt: the two headers alone, in the wrong order. */
  lemma HeadersSwappedPanic()
    ensures SplitOf(USER_HEADER + SYSTEM_HEADER) == Panic
  {
    var prompt := USER_HEADER + SYSTEM_HEADER;
    assert prompt[..9] == USER_HEADER && prompt[9..] == SYSTEM_HEADER;
    assert At(prompt, USER_HEADER, 0) && At(prompt, SYSTEM_HEADER, 9);
    FirstIsUnique(prompt, USER_HEADER, 0);
    var s := Index(prompt, SYSTEM_HEADER);
    assert s != -1 && At(prompt, SYSTEM_HEADER, s);
    Chars(prompt, SYSTEM_HEADER, s);
    assert prompt[4] == 'U';
  }

  // ------------------------------------------------------------------ building

  /** The two sections under their headers. */
  function Combined(system: string, user: string): string {
    SYSTEM_HEADER + system + "\n\n" + USER_HEADER + user
  }

  lemma CombinedParts(system: string, user: string)
    ensures var prompt := Combined(system, user);
            && |prompt| == |system| + |user| + 22
            && prompt[0..11] == SYSTEM_HEADER && prompt[11..12 + |system|] == system + "\n"
            && prompt[12 + |system|] == '\n'
            && prompt[13 + |system|..22 + |system|] == USER_HEADER && prompt[22 + |system|..] == user
  {
  }

  /** Before its own user header, a prompt contains one only where the system text does. */
  lemma UserHeadersComeFromSystem(system: string, user: string, j: int)
    requires At(Combined(system, user), USER_HEADER, j) && j < |system| + 13
    ensures At(system + "\n", USER_HEADER, j - 11)
  {
    var prompt, text := Combined(system, user), system + "\n";
    CombinedParts(system, user);
    hide Combined;
    HeadersDoNotOverlap(prompt, 0, j);
    Chars(prompt, USER_HEADER, j);
    assert forall p :: j <= p < j + 8 ==> prompt[p] != '\n';
    assert prompt[11 + |system|] == prompt[11..12 + |system|][|system|] == '\n';
    SliceOfSlice(prompt, 11, 12 + |system|, j - 11, j - 2);
  }

  lemma SliceOfSlice(s: string, lo: nat, hi: nat, a: nat, b: nat)
    requires lo <= hi <= |s| && a <= b <= hi - lo
    ensures s[lo..hi][a..b] == s[lo + a..lo + b]
  {
    var t, u := s[lo..hi][a..b], s[lo + a..lo + b];
    assert forall p :: 0 <= p < b - a ==> t[p] == u[p];
  }

  lemma UserHeadersOfSystem(system: string, user: string, k: int)
    requires At(system + "\n", USER_HEADER, k)
    ensures At(Combined(system, user), USER_HEADER, k + 11)
  {
    var prompt := Combined(system, user);
    CombinedParts(system, user);
    hide Combined;
    assert k + 9 <= |system| + 1;
    SliceOfSlice(prompt, 11, 12 + |system|, k, k + 9);
  }

  lemma FirstIsUnique(s: string, sub: string, r: int)
    requires IsFirst(s, sub, r) && r >= -1
    ensures Index(s, sub) == r
  {
    var i := Index(s, sub);
    assert IsFirst(s, sub, i);
  }

  /** The user section starts right after the first user header of a prompt whose system text has none. */
  lemma IndexesOfCombined(system: string, user: string)
    ensures Index(Combined(system, user), SYSTEM_HEADER) == 0
    ensures var k := Index(system + "\n", USER_HEADER);
            Index(Combined(system, user), USER_HEADER) == if k == -1 then |system| + 13 else k + 11
  {
    var prompt, text := Combined(system, user), system + "\n";
    CombinedParts(system, user);
    FirstIsUnique(prompt, SYSTEM_HEADER, 0);
    var k := Index(text, USER_HEADER);
    var first := if k == -1 then |system| + 13 else k + 11;
    assert At(prompt, USER_HEADER, first) by {
      if k != -1 { UserHeadersOfSystem(system, user, k); }
    }
    hide Combined;
    forall j | j < first
      ensures !At(prompt, USER_HEADER, j)
    {
      if At(prompt, USER_HEADER, j) { UserHeadersComeFromSystem(system, user, j); }
    }
    FirstIsUnique(prompt, USER_HEADER, first);
  }

  /** What splitPrompt makes of any built prompt; it never panics on one. */
  lemma SplitOfCombined(system: string, user: string)
    ensures var (k, r) := (Index(system + "\n", USER_HEADER), SplitOf(Combined(system, user)));
            if k == -1 then r == Split(Trimmed(system), user)
            else r.Split? && r.system == Trimmed(system[..k]) && |r.user| > |user|
  {
    var k, prompt := Index(system + "\n", USER_HEADER), Combined(system, user);
    IndexesOfCombined(system, user);
    CombinedParts(system, user);
    hide Index;
    hide Combined;
    if k == -1 {
      assert prompt[11..|system| + 13] == prompt[11..12 + |system|] + "\n" == system + "\n\n";
      TrimTwoNewlines(system);
    } else {
      assert At(system + "\n", USER_HEADER, k);
      assert prompt[11..k + 11] == prompt[11..12 + |system|][..k] == system[..k];
    }
  }

  lemma TrimTwoNewlines(s: string)
    ensures Trimmed(s + "\n\n") == Trimmed(s)
  {
    assert (s + "\n\n")[..|s| + 1] == s + "\n";
    assert (s + "\n")[..|s|] == s;
  }

  /**
   Splitting a built prompt gives back exactly its two sections, whatever the user section contains (headers
   too), iff the system text contains no user header, not even with its last line break added, and does not end
   in white space.
   */
  lemma SplitUndoesBuild(system: string, user: string)
    ensures SplitOf(Combined(system, user)) == Split(system, user) <==>
              Index(system + "\n", USER_HEADER) == -1 && Trimmed(system) == system
  {
    hide Combined;
    hide SplitOf;
    hide Trimmed;
    SplitOfCombined(system, user);
  }

  /** In particular a system text without any hash sign that ends in a visible character is enough. */
  lemma TextWithoutHashes(system: string, user: string)
    requires '#' !in system && (system == [] || !IsSpace(system[|system| - 1]))
    ensures SplitOf(Combined(system, user)) == Split(system, user)
  {
    SplitUndoesBuild(system, user);
    hide Combined;
    hide SplitOf;
    var text := system + "\n";
    var k := Index(text, USER_HEADER);
    assert '#' !in text;
    if k != -1 { HeaderHasHash(text, k); }
  }

  lemma HeaderHasHash(s: string, i: int)
    requires At(s, USER_HEADER, i)
    ensures '#' in s
  {
    Chars(s, USER_HEADER, i);
    assert s[i] == '#';
  }

  // ------------------------------------------------------------------ the sections

  const TASK: string := "Analyse the following Kubernetes incident and return a JSON diagnosis.\n\n"

  const DETAILS_TITLE: string := "#### Incident Details\n"

  const DOCUMENTS_TITLE: string :=
    "#### Relevant Knowledge-Base Documents\n" +
    "The following excerpts were retrieved from our internal runbook store.\n" +
    "Use them to enrich your analysis where applicable:\n\n"

  const SCHEMA_REMINDER: string :=
    "#### Required JSON Output Schema\n" +
    "{\n  \"root_cause\": \"<string>\",\n  \"confidence\": <float 0.0-1.0>,\n  \"impact\": \"<string>\",\n" +
    "  \"severity\": \"<critical|high|medium|low>\",\n  \"recommended_actions\": [\"<string>\", ...],\n" +
    "  \"related_runbooks\": [\"<string>\", ...]\n}" +
    "\n\nRespond with ONLY the JSON object. Do not include any other text.\n"

  /** strings.TrimSpace(s) == "", for the white space of Unicode */
  predicate IsBlank(s: string, space: char -> bool) {
    forall i :: 0 <= i < |s| ==> space(s[i])
  }

  function Documents(ragContext: string, space: char -> bool): string {
    if IsBlank(ragContext, space) then "" else DOCUMENTS_TITLE + ragContext + "\n\n"
  }

  function UserSection(incident: string, ragContext: string, space: char -> bool): string {
    TASK + DETAILS_TITLE + incident + "\n\n" + Documents(ragContext, space) + SCHEMA_REMINDER
  }

  lemma CombinedSnoc(system: string, user: string, text: string)
    ensures Combined(system, user) + text == Combined(system, user + text)
  {
  }

  lemma CombinedNone(system: string)
    ensures Combined(system, "") == SYSTEM_HEADER + system + "\n\n" + USER_HEADER
  {
  }

  /**
   BuildAnalysisPrompt; incident is the marshalled incident. The provider that splits the prompt gets the
   system text and the user section back iff the system text meets the condition of SplitUndoesBuild.
   */
  method BuildAnalysisPrompt(system: string, incident: string, ragContext: string, space: char -> bool)
    returns (prompt: string)
    ensures prompt == Combined(system, UserSection(incident, ragContext, space))
    ensures SplitOf(prompt) == Split(system, UserSection(incident, ragContext, space)) <==>
              Index(system + "\n", USER_HEADER) == -1 && Trimmed(system) == system
  {
    SplitUndoesBuild(system, UserSection(incident, ragContext, space));
    CombinedNone(system);
    var sb := SYSTEM_HEADER + system + "\n\n" + USER_HEADER;
    hide *;
    ghost var user := "";
    sb, user := WriteString(system, sb, user, TASK);
    sb, user := WriteString(system, sb, user, DETAILS_TITLE);
    sb, user := WriteString(system, sb, user, incident);
    sb, user := WriteString(system, sb, user, "\n\n");
    if !IsBlank(ragContext, space) {
      sb, user := WriteString(system, sb, user, DOCUMENTS_TITLE + ragContext + "\n\n");
    } else {
      assert user + "" == user;
    }
    sb, user := WriteString(system, sb, user, SCHEMA_REMINDER);
    UserSectionParts(incident, ragContext, space);
    prompt := sb;
  }

  lemma UserSectionParts(incident: string, ragContext: string, space: char -> bool)
    ensures UserSection(incident, ragContext, space)
            == "" + TASK + DETAILS_TITLE + incident + "\n\n"
               + (if IsBlank(ragContext, space) then "" else DOCUMENTS_TITLE + ragContext + "\n\n") + SCHEMA_REMINDER
  {
    hide TASK;
    hide DETAILS_TITLE;
    hide DOCUMENTS_TITLE;
    hide SCHEMA_REMINDER;
    assert "" + TASK == TASK;
  }

  /** strings.Builder.WriteString, once the user section has begun */
  method WriteString(ghost system: string, sb: string, ghost user: string, text: string)
    returns (after: string, ghost section: string)
    requires sb == Combined(system, user)
    ensures section == user + text && after == sb + text == Combined(system, section)
  {
    CombinedSnoc(system, user, text);
    after, section := sb + text, user + text;
  }

  /** The whole prompt, part by part; the documents are left out iff every character of theirs is white space. */
  lemma PromptLayout(system: string, incident: string, ragContext: string, space: char -> bool)
    ensures var documents := if exists i :: 0 <= i < |ragContext| && !space(ragContext[i])
                             then DOCUMENTS_TITLE + ragContext + "\n\n" else "";
            Combined(system, UserSection(incident, ragContext, space))
            == "### SYSTEM\n" + system + "\n\n" + "### USER\n"
               + (TASK + DETAILS_TITLE + incident + "\n\n" + documents + SCHEMA_REMINDER)
  {
    hide TASK;
    hide DETAILS_TITLE;
    hide DOCUMENTS_TITLE;
    hide SCHEMA_REMINDER;
  }

  lemma AtMiddle(a: string, b: string, c: string)
    ensures At(a + b + c, b, |a|)
  {
  }

  /** The user section carries the incident, and the documents unless they are blank. */
  lemma UserSectionCarries(incident: string, ragContext: string, space: char -> bool)
    ensures exists i :: At(UserSection(incident, ragContext, space), incident, i)
    ensures (exists k :: 0 <= k < |ragContext| && !space(ragContext[k])) ==>
              exists i :: At(UserSection(incident, ragContext, space), ragContext, i)
  {
    hide At;
    hide TASK;
    hide DETAILS_TITLE;
    hide DOCUMENTS_TITLE;
    hide SCHEMA_REMINDER;
    var (front, documents) := (TASK + DETAILS_TITLE, Documents(ragContext, space));
    AtMiddle(front, incident, "\n\n" + documents + SCHEMA_REMINDER);
    Regroup(front, incident, "\n\n", documents, SCHEMA_REMINDER);
    assert At(UserSection(incident, ragContext, space), incident, |front|);
    if !IsBlank(ragContext, space) {
      AtMiddle(front + incident + "\n\n" + DOCUMENTS_TITLE, ragContext, "\n\n" + SCHEMA_REMINDER);
      RegroupDocuments(front + incident + "\n\n", DOCUMENTS_TITLE, ragContext, "\n\n", SCHEMA_REMINDER);
    }
  }

  lemma Regroup(a: string, b: string, c: string, d: string, e: string)
    ensures a + b + c + d + e == a + b + (c + d + e)
  {
  }

  lemma RegroupDocuments(a: string, b: string, c: string, d: string, e: string)
    ensures a + (b + c + d) + e == a + b + c + (d + e)
  {
  }
}
