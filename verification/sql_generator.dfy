/** Translating a question into SQL (api/sql_generator.py): the two chat
    messages sent to the completion service, the clean-up of its answer, and
    the fixed query returned when the call fails. The completion service is a
    function parameter; model name, temperature and token limit are
    configuration and are not modelled. */
module SqlGenerator {
  import opened Common
  import Prompt

  /** The query returned when the completion call fails. It is a valid query
      whose single row carries the error text, and it keeps its `;`. */
  const FallbackSql := "SELECT 'Error generating SQL, please check API logs' AS error;"

  const PreviousLabel := "Previous SQL: `"
  const RequestLabel := "`\n\nNew Request: "

  datatype Role = System | User

  datatype Message = Message(role: Role, content: string)

  /** What the completion service did: answered, with the first choice's
      content (which the service may leave empty), or failed. */
  datatype Completion = Completed(content: Option<string>) | Failed

  // ---------------------------------------------------------------------
  // Python string primitives

  /** Python's `str.isspace` characters, which `str.strip()` removes. */
  predicate IsPySpace(c: char)
  {
    var n := c as int;
    || (0x09 <= n <= 0x0D) || (0x1C <= n <= 0x20) || n == 0x85 || n == 0xA0
    || n == 0x1680 || (0x2000 <= n <= 0x200A) || n == 0x2028 || n == 0x2029
    || n == 0x202F || n == 0x205F || n == 0x3000
  }

  /** `s.strip()`: the slice of `s` left after removing Python white space
      at both ends. */
  function Strip(s: string): (r: string)
    ensures exists i, j :: 0 <= i <= j <= |s| && r == s[i..j] && AllIn(IsPySpace, s[..i]) && AllIn(IsPySpace, s[j..])
    ensures |r| > 0 ==> !IsPySpace(r[0]) && !IsPySpace(r[|r| - 1])
    ensures AllIn(IsPySpace, s) <==> r == []
  {
    Trim(IsPySpace, s)
  }

  /** `pat` occurs in `s` starting at index `i`. */
  predicate OccursAt(s: string, pat: string, i: nat)
  {
    i + |pat| <= |s| && s[i..i + |pat|] == pat
  }

  predicate Occurs(s: string, pat: string)
  {
    exists i :: 0 <= i <= |s| && OccursAt(s, pat, i)
  }

  /** `s.replace(pat, "")`: scanning left to right, every non-overlapping
      occurrence of `pat` is deleted; the text left over is not rescanned. */
  function RemoveAll(s: string, pat: string): (r: string)
    requires |pat| > 0
    ensures |r| <= |s|
    ensures forall c :: c in r ==> c in s
    ensures |s| < |pat| ==> r == s
    decreases |s|
  {
    if |s| < |pat| then s
    else if s[..|pat|] == pat then
      var rest := RemoveAll(s[|pat|..], pat);
      assert forall c :: c in s[|pat|..] ==> c in s;
      rest
    else
      var rest := RemoveAll(s[1..], pat);
      assert forall c :: c in s[1..] ==> c in s;
      [s[0]] + rest
  }

  /** Removal only deletes characters. */
  lemma {:induction false} RemoveAllDeletes(s: string, pat: string)
    requires |pat| > 0
    ensures IsSubsequence(RemoveAll(s, pat), s)
    decreases |s|
  {
    if |s| < |pat| {
      SubsequenceReflexive(s);
    } else if s[..|pat|] == pat {
      RemoveAllDeletes(s[|pat|..], pat);
      DropPrefixSubsequence(RemoveAll(s[|pat|..], pat), s, |pat|);
    } else {
      RemoveAllDeletes(s[1..], pat);
      var r := RemoveAll(s[1..], pat);
      assert ([s[0]] + r)[1..] == r;
    }
  }

  /** A subsequence of a suffix is a subsequence of the whole. */
  lemma {:induction false} DropPrefixSubsequence(a: string, s: string, k: nat)
    requires k <= |s| && IsSubsequence(a, s[k..])
    ensures IsSubsequence(a, s)
    decreases k
  {
    if k > 0 {
      assert s[k - 1..] == [s[k - 1]] + s[k..];
      SubsequenceExtend(a, s[k..], s[k - 1]);
      DropPrefixSubsequence(a, s, k - 1);
    }
  }

  /** Text without an occurrence of `pat` is left as it is. */
  lemma {:induction false} RemoveAllAbsent(s: string, pat: string)
    requires |pat| > 0 && !Occurs(s, pat)
    ensures RemoveAll(s, pat) == s
    decreases |s|
  {
    if |s| >= |pat| {
      assert !OccursAt(s, pat, 0);
      assert s[..|pat|] == s[0..|pat|];
      forall i | 0 <= i <= |s[1..]|
        ensures !OccursAt(s[1..], pat, i)
      {
        assert !OccursAt(s, pat, i + 1);
        if i + |pat| <= |s[1..]| {
          assert s[1..][i..i + |pat|] == s[i + 1..i + 1 + |pat|];
        }
      }
      RemoveAllAbsent(s[1..], pat);
    }
  }

  /** Deleting a one-character pattern removes every copy of that character. */
  lemma {:induction false} RemoveAllChar(s: string, c: char)
    ensures c !in RemoveAll(s, [c])
    decreases |s|
  {
    if |s| >= 1 {
      RemoveAllChar(s[1..], c);
      if s[..1] != [c] {
        assert s[0] != c;
      }
    }
  }

  /** A character absent from `pat`'s first position cannot start an occurrence. */
  lemma FirstCharAbsent(s: string, pat: string)
    requires |pat| > 0 && pat[0] !in s
    ensures !Occurs(s, pat)
  {
    forall i | 0 <= i <= |s|
      ensures !OccursAt(s, pat, i)
    {
      if i + |pat| <= |s| {
        assert s[i..i + |pat|][0] == s[i];
      }
    }
  }

  // ---------------------------------------------------------------------
  // Cleaning the completion's answer

  /** `content.strip().replace("```sql", "").replace("```", "").replace(";", "")`. */
  function Sanitize(content: string): (sql: string)
    ensures ';' !in sql
  {
    var stripped := Strip(content);
    var r := RemoveAll(RemoveAll(RemoveAll(stripped, "```sql"), "```"), ";");
    RemoveAllChar(RemoveAll(RemoveAll(stripped, "```sql"), "```"), ';');
    r
  }

  /** Sanitising only deletes characters of the stripped answer. */
  lemma SanitizeDeletesOnly(content: string)
    ensures IsSubsequence(Sanitize(content), Strip(content))
    ensures |Sanitize(content)| <= |Strip(content)|
  {
    var s0 := Strip(content);
    var s1 := RemoveAll(s0, "```sql");
    var s2 := RemoveAll(s1, "```");
    RemoveAllDeletes(s0, "```sql");
    RemoveAllDeletes(s1, "```");
    RemoveAllDeletes(s2, ";");
    SubsequenceTransitive(s2, s1, s0);
    SubsequenceTransitive(Sanitize(content), s2, s0);
    SubsequenceLength(Sanitize(content), s0);
  }

  /** An answer with no backtick and no semicolon comes back merely stripped. */
  lemma SanitizeKeepsCleanAnswer(content: string)
    requires '`' !in content && ';' !in content
    ensures Sanitize(content) == Strip(content)
  {
    var s0 := Strip(content);
    var i, j :| 0 <= i <= j <= |content| && s0 == content[i..j] && AllIn(IsPySpace, content[..i]) && AllIn(IsPySpace, content[j..]);
    assert '`' !in s0 && ';' !in s0 by {
      forall k | 0 <= k < |s0|
        ensures s0[k] == content[i + k]
      {
      }
    }
    FirstCharAbsent(s0, "```sql");
    RemoveAllAbsent(s0, "```sql");
    FirstCharAbsent(s0, "```");
    RemoveAllAbsent(s0, "```");
    FirstCharAbsent(s0, ";");
    RemoveAllAbsent(s0, ";");
  }

  /** Fences are removed before semicolons, so removing a semicolon can join
      backticks into a new fence: freedom from `;` is the only cleanliness
      the answer gets. */
  lemma SanitizeCanLeaveFence()
    ensures Sanitize("``;`") == "```"
    ensures Sanitize("``;`sql") == "```sql"
  {
    SanitizeShortFence();
    SanitizeLongFence();
  }

  lemma SanitizeShortFence()
    ensures Sanitize("``;`") == "```"
  {
    StripTrimmed("``;`");
    FenceExampleShort();
  }

  lemma SanitizeLongFence()
    ensures Sanitize("``;`sql") == "```sql"
  {
    StripTrimmed("``;`sql");
    FenceExampleLong();
  }

  /** Text without white space at either end is its own strip. */
  lemma StripTrimmed(s: string)
    requires |s| > 0 && !IsPySpace(s[0]) && !IsPySpace(s[|s| - 1])
    ensures Strip(s) == s
  {
    assert LeadingSpace(IsPySpace, s) == 0;
    assert TrailingSpace(IsPySpace, s) == 0;
  }

  lemma FenceExampleShort()
    ensures RemoveAll("``;`", "```sql") == "``;`"
    ensures RemoveAll("``;`", "```") == "``;`"
    ensures RemoveAll("``;`", ";") == "```"
  {
    MismatchAt("``;`", "```", 2);
    MismatchAt("`;`", "```", 1);
    assert RemoveAll(";`", "```") == ";`";
    MismatchAt("``;`", ";", 0);
    MismatchAt("`;`", ";", 0);
    assert RemoveAll("`", ";") == "`";
    assert RemoveAll(";`", ";") == "`";
  }

  lemma FenceExampleLong()
    ensures RemoveAll("``;`sql", "```sql") == "``;`sql"
    ensures RemoveAll("``;`sql", "```") == "``;`sql"
    ensures RemoveAll("``;`sql", ";") == "```sql"
  {
    FenceExampleLongFirst();
    FenceExampleLongSecond();
    FenceExampleLongThird();
  }

  lemma FenceExampleLongThird()
    ensures RemoveAll("``;`sql", ";") == "```sql"
  {
    FenceExampleTail();
    MismatchAt("`;`sql", ";", 0);
    assert RemoveAll("`;`sql", ";") == "``sql";
    MismatchAt("``;`sql", ";", 0);
  }

  lemma FenceExampleTail()
    ensures RemoveAll(";`sql", ";") == "`sql"
  {
    NoCharUnchanged("`sql", ';');
    assert ";`sql"[..1] == ";";
    assert ";`sql"[1..] == "`sql";
  }

  lemma FenceExampleLongFirst()
    ensures RemoveAll("``;`sql", "```sql") == "``;`sql"
  {
    MismatchAt("``;`sql", "```sql", 2);
    MismatchAt("`;`sql", "```sql", 1);
    assert RemoveAll(";`sql", "```sql") == ";`sql";
  }

  lemma FenceExampleLongSecond()
    ensures RemoveAll("``;`sql", "```") == "``;`sql"
  {
    MismatchAt("sql", "```", 0);
    assert RemoveAll("ql", "```") == "ql";
    assert RemoveAll("sql", "```") == "sql";
    MismatchAt("`sql", "```", 1);
    assert RemoveAll("`sql", "```") == "`sql";
    MismatchAt(";`sql", "```", 0);
    assert RemoveAll(";`sql", "```") == ";`sql";
    MismatchAt("`;`sql", "```", 1);
    assert RemoveAll("`;`sql", "```") == "`;`sql";
    MismatchAt("``;`sql", "```", 2);
  }

  /** A text that differs from `pat` at position `i` does not start with `pat`. */
  lemma MismatchAt(s: string, pat: string, i: nat)
    requires i < |pat| <= |s| && s[i] != pat[i]
    ensures s[..|pat|] != pat
  {
    assert s[..|pat|][i] == s[i];
  }

  /** Removing a character that does not occur changes nothing. */
  lemma NoCharUnchanged(s: string, c: char)
    requires c !in s
    ensures RemoveAll(s, [c]) == s
  {
    FirstCharAbsent(s, [c]);
    RemoveAllAbsent(s, [c]);
  }

  // ---------------------------------------------------------------------
  // Building the request

  /** What the user message shows for the previous query: the query itself,
      or `None` when there is none or it is empty (Python truthiness). */
  function ShownPrevious(previousSql: Option<string>): (shown: string)
    ensures |shown| > 0
    ensures previousSql.Some? && previousSql.value != "" ==> shown == previousSql.value
    ensures previousSql.None? || previousSql.value == "" ==> shown == "None"
  {
    if previousSql.Some? && previousSql.value != "" then previousSql.value else "None"
  }

  /** The user message: the previous query between backticks, a blank line,
      then the new question. */
  function UserMessage(question: string, previousSql: Option<string>): (m: string)
    ensures |m| == |PreviousLabel| + |ShownPrevious(previousSql)| + |RequestLabel| + |question|
    ensures m[..|PreviousLabel|] == PreviousLabel
    ensures m[|PreviousLabel|..|PreviousLabel| + |ShownPrevious(previousSql)|] == ShownPrevious(previousSql)
    ensures m[|PreviousLabel| + |ShownPrevious(previousSql)|..|m| - |question|] == RequestLabel
    ensures m[|m| - |question|..] == question
  {
    PreviousLabel + ShownPrevious(previousSql) + RequestLabel + question
  }

  /** No previous query, an empty one and the literal query `None` give the
      same message; the question is recoverable from every message. */
  lemma UserMessageSentinel(question: string, question': string, previousSql: Option<string>)
    ensures UserMessage(question, None) == UserMessage(question, Some(""))
    ensures UserMessage(question, None) == UserMessage(question, Some("None"))
    ensures UserMessage(question, previousSql) == UserMessage(question', previousSql) ==> question == question'
  {
    if UserMessage(question, previousSql) == UserMessage(question', previousSql) {
      var m := UserMessage(question, previousSql);
      assert question == m[|m| - |question|..];
    }
  }

  /** The two chat messages: the constant system prompt, then the user message. */
  function Messages(question: string, previousSql: Option<string>): (ms: seq<Message>)
    ensures |ms| == 2
    ensures ms[0].role == System && ms[0].content == Prompt.SystemPrompt()
    ensures ms[1] == Message(User, UserMessage(question, previousSql))
  {
    [Message(System, Prompt.SystemPrompt()), Message(User, UserMessage(question, previousSql))]
  }

  /** The system message does not depend on the question or the previous query. */
  lemma SystemMessageIsConstant(q: string, p: Option<string>, q': string, p': Option<string>)
    ensures Messages(q, p)[0] == Messages(q', p')[0]
  {
  }

  // ---------------------------------------------------------------------
  // nl_to_sql

  /** The answer of the completion service is usable: it answered, with content. */
  predicate Answered(c: Completion)
  {
    c.Completed? && c.content.Some?
  }

  /** The SQL for a question. Building the HTTP client and the API client
      happens before the `try`, so when either raises (`clientBuilds` is
      false) the exception escapes the function: `Err`. Otherwise the result
      is the sanitised answer of the completion service, or the fallback
      query when the call fails or returns no content (whose `.strip()` then
      raises inside the handler). */
  function NlToSql(question: string, previousSql: Option<string>, clientBuilds: bool,
                   complete: seq<Message> -> Completion): (r: Outcome<string>)
    ensures r.Err? <==> !clientBuilds
    ensures clientBuilds ==>
      var c := complete(Messages(question, previousSql));
      if Answered(c) then r == Ok(Sanitize(c.content.value)) else r == Ok(FallbackSql)
  {
    if !clientBuilds then Err
    else
      var c := complete(Messages(question, previousSql));
      if Answered(c) then Ok(Sanitize(c.content.value)) else Ok(FallbackSql)
  }

  /** When the function returns, a semicolon in the generated SQL happens
      exactly when generation failed: sanitised answers never have one, the
      fallback query always does. */
  lemma SemicolonMarksFailure(question: string, previousSql: Option<string>, clientBuilds: bool,
                              complete: seq<Message> -> Completion)
    ensures NlToSql(question, previousSql, clientBuilds, complete).Ok? ==>
      ((';' in NlToSql(question, previousSql, clientBuilds, complete).value)
       <==> !Answered(complete(Messages(question, previousSql))))
  {
    assert FallbackSql[|FallbackSql| - 1] == ';';
  }
}
