/**
 * The cover-letter template service: placeholder extraction, template
 * population, the `variables` field derived on every write and stored as a
 * comma-joined string, the read mapping of stored records, the create,
 * update and delete outcome rules, and the sorted category list.
 */
module CoverLetterTemplates {
  import opened Wrappers
  import opened Strings
  import opened Unique
  import opened Sorting
  import opened Remote

  // ---------------------------------------------------------------------
  // extractVariables: the regular expression /\{([^}]+)\}/g
  // ---------------------------------------------------------------------

  /** The index of the first `c` in `s`, or `|s|` when there is none. */
  function IndexOf(s: string, c: char): (k: nat)
    ensures k <= |s|
    ensures forall i :: 0 <= i < k ==> s[i] != c
    ensures k < |s| ==> s[k] == c
  {
    if |s| == 0 then 0 else if s[0] == c then 0 else 1 + IndexOf(s[1..], c)
  }

  /** For `t` starting with `{`: the index of the first `}` after it, or `|t|`. */
  function CloseAt(t: string): (j: nat)
    requires |t| > 0
    ensures 1 <= j <= |t|
    ensures forall k :: 1 <= k < j ==> t[k] != '}'
    ensures j < |t| ==> t[j] == '}'
  {
    1 + IndexOf(t[1..], '}')
  }

  /**
   * The pattern matches at the front of `t`: a `{`, one or more characters
   * other than `}` (the `+`), then `}`. `[^}]+` is greedy but cannot cross a
   * `}`, so the only candidate end is the first `}`.
   */
  predicate MatchesAtFront(t: string): (m: bool)
  {
    |t| > 0 && t[0] == '{' && 2 <= CloseAt(t) < |t|
  }

  /** How far one step of the scan advances: past the match at the front, or by one character. */
  function Step(t: string): (d: nat)
    requires |t| > 0
    ensures 1 <= d <= |t|
  {
    if MatchesAtFront(t) then CloseAt(t) + 1 else 1
  }

  /** The name the match at the front yields, stripped of its braces. */
  function FrontName(t: string): (name: string)
    requires MatchesAtFront(t)
    ensures |name| > 0 && '}' !in name
  {
    var j := CloseAt(t);
    assert forall k :: 0 <= k < |t[1..j]| ==> t[1..j][k] == t[k + 1];
    t[1..j]
  }

  /**
   * `t.match(/\{([^}]+)\}/g)` with each match stripped of its braces: the
   * engine tries each position from the left; after a match it resumes just
   * behind the `}`, otherwise one character further on.
   */
  function Matches(t: string): (names: seq<string>)
    ensures forall k :: 0 <= k < |names| ==> |names[k]| > 0 && '}' !in names[k]
    decreases |t|
  {
    if |t| == 0 then []
    else (if MatchesAtFront(t) then [FrontName(t)] else []) + Matches(t[Step(t)..])
  }

  /** The text `{name}`. */
  function Placeholder(name: string): (p: string)
    ensures |p| == |name| + 2
  {
    "{" + name + "}"
  }

  /** A run the pattern can match: `{` at `i`, `}` at `j`, at least one character between and no `}` among them. */
  ghost predicate IsRun(t: string, i: nat, j: nat)
  {
    i + 2 <= j < |t| && t[i] == '{' && t[j] == '}' && forall k :: i < k < j ==> t[k] != '}'
  }

  /** The text holds a `{`, then one or more non-`}` characters, then `}`. */
  ghost predicate HasPlaceholder(t: string)
  {
    exists i: nat, j: nat :: IsRun(t, i, j)
  }

  /** Every `{` before index `i` is closed by a `}` before `i`: the scan is not inside a brace at `i`. */
  ghost predicate ClosedBefore(t: string, i: nat)
    requires i <= |t|
  {
    forall p :: 0 <= p < i && t[p] == '{' ==> '}' in t[p + 1..i]
  }

  /** The pattern matches at the front exactly when the text up to the first `}` is a run. */
  lemma MatchesAtFrontIffRun(t: string)
    ensures MatchesAtFront(t) <==> |t| > 0 && IsRun(t, 0, CloseAt(t))
  {
  }

  /** A run starting at the front is the match at the front. */
  lemma RunAtFront(t: string, j: nat)
    requires IsRun(t, 0, j)
    ensures MatchesAtFront(t) && CloseAt(t) == j
  {
  }

  /** The match at the front is the placeholder of its name. */
  lemma FrontMatchIsPlaceholder(t: string)
    requires MatchesAtFront(t)
    ensures OccursAt(t, Placeholder(FrontName(t)), 0)
  {
    var j := CloseAt(t);
    assert t[0..j + 1] == [t[0]] + t[1..j] + [t[j]];
  }

  /** Where the placeholder of the `k`-th extracted name occurs in the text. */
  lemma {:induction false} MatchPosition(t: string, k: nat) returns (i: nat)
    requires k < |Matches(t)|
    ensures OccursAt(t, Placeholder(Matches(t)[k]), i)
    decreases |t|
  {
    var d := Step(t);
    var front := if MatchesAtFront(t) then [FrontName(t)] else [];
    assert Matches(t) == front + Matches(t[d..]);
    if k < |front| {
      FrontMatchIsPlaceholder(t);
      i := 0;
    } else {
      var i' := MatchPosition(t[d..], k - |front|);
      OccursInSuffix(t, d, Placeholder(Matches(t)[k]), i');
      i := i' + d;
    }
  }

  /** Every extracted name's placeholder occurs in the text. */
  lemma MatchesOccur(t: string)
    ensures forall k :: 0 <= k < |Matches(t)| ==> Contains(t, Placeholder(Matches(t)[k]))
  {
    forall k | 0 <= k < |Matches(t)| ensures Contains(t, Placeholder(Matches(t)[k])) {
      var i := MatchPosition(t, k);
    }
  }

  /** Nothing is extracted exactly when the text holds no `{`, non-`}` characters, `}` run: `{}` and an unclosed `{x` give nothing. */
  lemma {:induction false} NoMatchesIffNoRun(t: string)
    ensures Matches(t) == [] <==> !HasPlaceholder(t)
    decreases |t|
  {
    if Matches(t) != [] {
      var i := MatchPosition(t, 0);
      OccurrenceIsRun(t, Matches(t)[0], i);
    } else if HasPlaceholder(t) {
      var i: nat, j: nat :| IsRun(t, i, j);
      if i == 0 {
        RunAtFront(t, j);
      } else {
        assert IsRun(t[1..], i - 1, j - 1);
        NoMatchesIffNoRun(t[1..]);
        RunAbsentAtFront(t);
      }
    }
  }

  /** An occurrence of `{name}`, for a non-empty name without `}`, is a run the pattern can match. */
  lemma OccurrenceIsRun(t: string, name: string, i: nat)
    requires OccursAt(t, Placeholder(name), i)
    requires |name| > 0 && '}' !in name
    ensures IsRun(t, i, i + |name| + 1)
  {
    var e := i + |name| + 1;
    var p := Placeholder(name);
    assert t[i..e + 1] == p;
    assert t[i] == p[0] == '{';
    assert t[e] == p[|name| + 1] == '}';
    forall k | i < k < e ensures t[k] != '}' {
      assert t[k] == p[k - i] == name[k - i - 1];
    }
  }

  /** When `Matches(t)` is empty, the front does not match and the scan moves on by one character. */
  lemma RunAbsentAtFront(t: string)
    requires |t| > 0 && Matches(t) == []
    ensures Matches(t) == Matches(t[1..])
  {
  }

  /**
   * Completeness: a `{name}` (name non-empty, without `}`) that the scan
   * reaches outside any open brace is extracted.
   */
  lemma {:induction false} MatchesComplete(t: string, i: nat, name: string)
    requires OccursAt(t, Placeholder(name), i)
    requires |name| > 0 && '}' !in name
    requires ClosedBefore(t, i)
    ensures name in Matches(t)
    decreases |t|
  {
    if i == 0 {
      PlaceholderFront(t, name);
    } else {
      var d := Step(t);
      assert d <= i by {
        if MatchesAtFront(t) {
          assert '}' in t[1..i];
          var m :| 1 <= m < i && t[m] == '}';
        }
      }
      ShiftOccurrence(t, d, Placeholder(name), i);
      ShiftClosed(t, d, i);
      MatchesComplete(t[d..], i - d, name);
    }
  }

  /** A `{name}` at the front of the text is the match at the front. */
  lemma PlaceholderFront(t: string, name: string)
    requires OccursAt(t, Placeholder(name), 0)
    requires |name| > 0 && '}' !in name
    ensures MatchesAtFront(t) && FrontName(t) == name && Step(t) == |name| + 2
  {
    var e := |name| + 1;
    OccurrenceIsRun(t, name, 0);
    RunAtFront(t, e);
    assert t[1..e] == Placeholder(name)[1..e] == name;
  }

  lemma ShiftOccurrence(t: string, d: nat, p: string, i: nat)
    requires d <= i && OccursAt(t, p, i)
    ensures OccursAt(t[d..], p, i - d)
  {
    assert t[d..][i - d..i - d + |p|] == t[i..i + |p|];
  }

  lemma ShiftClosed(t: string, d: nat, i: nat)
    requires d <= i <= |t| && ClosedBefore(t, i)
    ensures ClosedBefore(t[d..], i - d)
  {
    var u := t[d..];
    forall p | 0 <= p < i - d && u[p] == '{' ensures '}' in u[p + 1..i - d] {
      assert u[p + 1..i - d] == t[p + d + 1..i];
    }
  }

  /** Once `c` occurs in `s`, appending to `s` does not move its first occurrence. */
  lemma IndexOfPrefix(s: string, u: string, c: char)
    requires c in s
    ensures IndexOf(s + u, c) == IndexOf(s, c)
  {
    var k := IndexOf(s, c);
    assert k < |s|;
    assert (s + u)[k] == c;
    assert forall i :: 0 <= i < k ==> (s + u)[i] == s[i];
  }

  /** A prefix whose leading `{`, if any, is closed inside it takes the first step of the scan on its own. */
  lemma StepOfOpenPrefix(a: string, b: string)
    requires |a| > 0 && (a[0] == '{' ==> '}' in a[1..])
    ensures MatchesAtFront(a + b) == MatchesAtFront(a) && Step(a + b) == Step(a)
    ensures MatchesAtFront(a) ==> FrontName(a + b) == FrontName(a)
  {
    var t := a + b;
    assert t[0] == a[0];
    if a[0] == '{' {
      assert t[1..] == a[1..] + b;
      IndexOfPrefix(a[1..], b, '}');
      assert CloseAt(t) == CloseAt(a);
      assert CloseAt(a) < |a|;
      if MatchesAtFront(a) {
        assert t[1..CloseAt(t)] == a[1..CloseAt(a)];
      }
    }
  }

  /** A prefix that closes every brace it opens takes the first step of the scan on its own. */
  lemma StepOfPrefix(a: string, b: string)
    requires |a| > 0 && ClosedBefore(a, |a|)
    ensures MatchesAtFront(a + b) == MatchesAtFront(a) && Step(a + b) == Step(a)
    ensures MatchesAtFront(a) ==> FrontName(a + b) == FrontName(a)
  {
    assert a[0] == '{' ==> '}' in a[1..];
    StepOfOpenPrefix(a, b);
  }

  /** The scan of a prefix is a prefix of the scan of the whole: text appended later never undoes a match. */
  lemma {:induction false} MatchesPrefix(a: string, b: string)
    ensures Matches(a) <= Matches(a + b)
    decreases |a|
  {
    if |a| > 0 {
      if a[0] == '{' && '}' !in a[1..] {
        assert CloseAt(a) == |a|;
        WithoutBracesNothing(a[1..]);
        assert Matches(a) == Matches(a[1..]);
      } else {
        var t := a + b;
        var d := Step(a);
        StepOfOpenPrefix(a, b);
        assert t[d..] == a[d..] + b;
        MatchesPrefix(a[d..], b);
        var front := if MatchesAtFront(a) then [FrontName(a)] else [];
        assert Matches(a) == front + Matches(a[d..]);
        assert Matches(t) == front + Matches(t[d..]);
      }
    }
  }

  /** Text whose braces all close can be scanned on its own: extraction distributes over the concatenation. */
  lemma {:induction false} MatchesAppend(a: string, b: string)
    requires ClosedBefore(a, |a|)
    ensures Matches(a + b) == Matches(a) + Matches(b)
    decreases |a|
  {
    if |a| == 0 {
      assert a + b == b;
    } else {
      var t := a + b;
      var d := Step(a);
      StepOfPrefix(a, b);
      assert t[d..] == a[d..] + b;
      ShiftClosed(a, d, |a|);
      MatchesAppend(a[d..], b);
    }
  }

  /** Text lacking `{` or lacking `}` yields no match. */
  lemma WithoutBracesNothing(t: string)
    requires '{' !in t || '}' !in t
    ensures Matches(t) == []
  {
    NoMatchesIffNoRun(t);
  }

  /** A leading run without `{` is skipped by the scan. */
  lemma SkipsPrefixWithoutOpen(p: string, rest: string)
    requires '{' !in p
    ensures Matches(p + rest) == Matches(rest)
  {
    WithoutBracesNothing(p);
    MatchesAppend(p, rest);
  }

  /** A placeholder at the front is matched, and the scan resumes behind its `}`. */
  lemma PlaceholderAtFront(name: string, rest: string)
    requires |name| > 0 && '}' !in name
    ensures Matches(Placeholder(name) + rest) == [name] + Matches(rest)
  {
    var t := Placeholder(name) + rest;
    assert t[..|name| + 2] == Placeholder(name);
    PlaceholderFront(t, name);
    assert t[|name| + 2..] == rest;
  }

  /** `extractVariables(content, subject)`: the distinct names matched in `content + " " + subject`, first occurrence first. */
  function ExtractVariables(content: string, subject: string): (names: seq<string>)
    ensures forall i, j :: 0 <= i < j < |names| ==> names[i] != names[j]
    ensures forall k :: 0 <= k < |names| ==> |names[k]| > 0 && '}' !in names[k]
  {
    Distinct(Matches(content + " " + subject))
  }

  /** Every extracted name `n` has `{n}` in `content + " " + subject`. */
  lemma ExtractedNamesOccur(content: string, subject: string)
    ensures forall k :: 0 <= k < |ExtractVariables(content, subject)| ==>
      Contains(content + " " + subject, Placeholder(ExtractVariables(content, subject)[k]))
  {
    var text := content + " " + subject;
    MatchesOccur(text);
    forall k | 0 <= k < |ExtractVariables(content, subject)|
      ensures Contains(text, Placeholder(ExtractVariables(content, subject)[k]))
    {
      var n := ExtractVariables(content, subject)[k];
      var m := FirstIndex(Matches(text), n);
      assert Matches(text)[m] == n;
    }
  }

  /** Names come out in the order of their first match. */
  lemma ExtractedNamesInFirstMatchOrder(content: string, subject: string, i: nat, j: nat)
    requires i < j < |ExtractVariables(content, subject)|
    ensures FirstIndex(Matches(content + " " + subject), ExtractVariables(content, subject)[i])
          < FirstIndex(Matches(content + " " + subject), ExtractVariables(content, subject)[j])
  {
    DistinctKeepsFirstOccurrenceOrder(Matches(content + " " + subject), i, j);
  }

  /**
   * When every `{` of `content` is closed inside `content`, content and subject
   * are scanned separately and the names found in `content` come first.
   */
  lemma ContentNamesFirst(content: string, subject: string)
    requires ClosedBefore(content, |content|)
    ensures ExtractVariables(content, subject) == Distinct(Matches(content) + Matches(subject))
  {
    var rest := " " + subject;
    var text := content + " " + subject;
    assert text == content + rest;
    MatchesAppend(content, rest);
    SkipsPrefixWithoutOpen(" ", subject);
    assert Matches(text) == Matches(content) + Matches(subject);
  }

  /** Content is scanned before subject: the distinct names of the content alone open the result, whatever its braces. */
  lemma ContentScannedFirst(content: string, subject: string)
    ensures Distinct(Matches(content)) <= ExtractVariables(content, subject)
  {
    var rest := " " + subject;
    assert content + " " + subject == content + rest;
    MatchesPrefix(content, rest);
    DistinctOfPrefix(Matches(content), Matches(content + rest));
  }

  /** A placeholder the scan reaches outside any open brace is among the extracted names. */
  lemma ExtractedNamesComplete(content: string, subject: string, i: nat, name: string)
    requires OccursAt(content + " " + subject, Placeholder(name), i)
    requires |name| > 0 && '}' !in name
    requires ClosedBefore(content + " " + subject, i)
    ensures name in ExtractVariables(content, subject)
  {
    MatchesComplete(content + " " + subject, i, name);
  }

  /** Nothing is extracted exactly when neither content, joining space nor subject hold a matchable run. */
  lemma ExtractedNothingIffNoRun(content: string, subject: string)
    ensures ExtractVariables(content, subject) == [] <==> !HasPlaceholder(content + " " + subject)
  {
    var ms := Matches(content + " " + subject);
    NoMatchesIffNoRun(content + " " + subject);
    if ms != [] {
      assert ms[0] in Distinct(ms);
    }
  }

  // ---------------------------------------------------------------------
  // populateTemplate
  // ---------------------------------------------------------------------

  /** One entry of the `variables` object: a key and its value, `None` when `null` or `undefined`. */
  datatype Binding = Binding(key: string, value: Option<string>)

  /** The `{subject, content}` pair a template is populated from and populates into. */
  datatype Letter = Letter(subject: string, content: string)

  /** The characters a JavaScript regular expression gives a meaning of their own. */
  predicate IsRegexMeta(c: char)
  {
    c in "\\^$.|?*+()[]{}"
  }

  /**
   * A key whose `new RegExp('{' + key + '}', 'g')` matches `{key}` literally:
   * no metacharacter, and not made only of digits and commas (`{12}` and `{1,2}`
   * would be quantifiers, and integer-like keys would also be reordered by `Object.entries`).
   */
  predicate LiteralKey(key: string)
  {
    && (forall i :: 0 <= i < |key| ==> !IsRegexMeta(key[i]))
    && (exists i :: 0 <= i < |key| && !('0' <= key[i] <= '9' || key[i] == ','))
  }

  /** A binding the populator handles as a literal replace: literal key, no `$` replacement pattern in the value. */
  predicate SafeBinding(b: Binding)
  {
    LiteralKey(b.key) && (b.value.Some? ==> '$' !in b.value.value)
  }

  /** `value || '{key}'`: an empty or missing value puts the placeholder back. */
  function Replacement(b: Binding): (r: string)
    ensures b.value.Some? && b.value.value != "" ==> r == b.value.value
    ensures b.value.None? || b.value.value == "" ==> r == Placeholder(b.key)
  {
    OrDefault(b.value, Placeholder(b.key))
  }

  /** One replace of the loop body: every `{key}` in `s` becomes the binding's replacement. */
  function Substitute(s: string, b: Binding): (r: string)
    ensures r == Join(Split(s, Placeholder(b.key)), Replacement(b))
  {
    ReplaceAllIsSplitJoin(s, Placeholder(b.key), Replacement(b));
    ReplaceAll(s, Placeholder(b.key), Replacement(b))
  }

  /** The letter after applying `bindings` in order, each to the output of the ones before it. */
  function Populate(letter: Letter, bindings: seq<Binding>): (r: Letter)
    ensures (forall i :: 0 <= i < |bindings| ==> |Replacement(bindings[i])| == |Placeholder(bindings[i].key)|)
            ==> |r.subject| == |letter.subject| && |r.content| == |letter.content|
    decreases |bindings|
  {
    if |bindings| == 0 then letter
    else
      var before := Populate(letter, bindings[..|bindings| - 1]);
      var b := bindings[|bindings| - 1];
      Letter(Substitute(before.subject, b), Substitute(before.content, b))
  }

  /** `populateTemplate(template, variables)`: the loop over the entries of `variables`. */
  method PopulateTemplate(template: Letter, bindings: seq<Binding>) returns (populated: Letter)
    requires forall i :: 0 <= i < |bindings| ==> SafeBinding(bindings[i])
    ensures populated == Populate(template, bindings)
  {
    var populatedContent := template.content;
    var populatedSubject := template.subject;
    var i := 0;
    while i < |bindings|
      invariant 0 <= i <= |bindings|
      invariant Letter(populatedSubject, populatedContent) == Populate(template, bindings[..i])
    {
      var b := bindings[i];
      var placeholder := Placeholder(b.key);
      assert Populate(template, bindings[..i + 1]) == Letter(Substitute(populatedSubject, b), Substitute(populatedContent, b)) by {
        assert bindings[..i + 1][..i] == bindings[..i];
      }
      populatedContent := ReplaceAll(populatedContent, placeholder, OrDefault(b.value, placeholder));
      populatedSubject := ReplaceAll(populatedSubject, placeholder, OrDefault(b.value, placeholder));
      i := i + 1;
    }
    assert bindings[..i] == bindings;
    populated := Letter(populatedSubject, populatedContent);
  }

  /** A binding whose value is empty or missing leaves the text as it was. */
  lemma UnboundLeavesText(s: string, b: Binding)
    requires b.value.None? || b.value.value == ""
    ensures Substitute(s, b) == s
  {
    ReplaceByItself(s, Placeholder(b.key));
  }

  /**
   * A binding with a non-empty value `v` cuts the text at every `{key}` and joins
   * the pieces with `v`; the pieces are the text between occurrences, untouched.
   */
  lemma BoundReplacesEveryOccurrence(s: string, b: Binding)
    requires b.value.Some? && b.value.value != ""
    ensures Substitute(s, b) == Join(Split(s, Placeholder(b.key)), b.value.value)
    ensures Join(Split(s, Placeholder(b.key)), Placeholder(b.key)) == s
    ensures forall k :: 0 <= k < |Split(s, Placeholder(b.key))| ==>
      !Contains(Split(s, Placeholder(b.key))[k], Placeholder(b.key))
  {
    ReplaceAllIsSplitJoin(s, Placeholder(b.key), b.value.value);
    JoinSplit(s, Placeholder(b.key));
    SplitPiecesAvoidSeparator(s, Placeholder(b.key));
  }

  /** Bindings that all have empty or missing values leave the letter unchanged. */
  lemma {:induction false} PopulateWithoutValues(letter: Letter, bindings: seq<Binding>)
    requires forall i :: 0 <= i < |bindings| ==> bindings[i].value.None? || bindings[i].value.value == ""
    ensures Populate(letter, bindings) == letter
    decreases |bindings|
  {
    if |bindings| > 0 {
      var b := bindings[|bindings| - 1];
      PopulateWithoutValues(letter, bindings[..|bindings| - 1]);
      UnboundLeavesText(letter.subject, b);
      UnboundLeavesText(letter.content, b);
    }
  }

  /** Text holding no `{key}` of any bound key comes back unchanged. */
  lemma {:induction false} PopulateWithoutPlaceholders(letter: Letter, bindings: seq<Binding>)
    requires forall i :: 0 <= i < |bindings| ==>
      !Contains(letter.subject, Placeholder(bindings[i].key)) && !Contains(letter.content, Placeholder(bindings[i].key))
    ensures Populate(letter, bindings) == letter
    decreases |bindings|
  {
    if |bindings| > 0 {
      var b := bindings[|bindings| - 1];
      PopulateWithoutPlaceholders(letter, bindings[..|bindings| - 1]);
      ReplaceAbsent(letter.subject, Placeholder(b.key), Replacement(b));
      ReplaceAbsent(letter.content, Placeholder(b.key), Replacement(b));
    }
  }

  /** A `{name}` placeholder with a name allowed as a key is a matchable run. */
  lemma PlaceholderIsRun(s: string, key: string)
    requires LiteralKey(key) && Contains(s, Placeholder(key))
    ensures HasPlaceholder(s)
  {
    var i: nat :| i <= |s| && OccursAt(s, Placeholder(key), i);
    var e := i + |key| + 1;
    assert s[i..e + 1] == Placeholder(key);
    forall k | i < k < e ensures s[k] == key[k - i - 1] {
      var p := Placeholder(key);
      assert s[k] == p[k - i] == p[1..|p| - 1][k - i - 1];
    }
    assert "\\^$.|?*+()[]{}"[13] == '}';
    assert IsRun(s, i, e);
  }

  /** Populating a fully resolved letter (nothing left to extract) is a no-op, whatever the bindings. */
  lemma PopulateResolved(letter: Letter, bindings: seq<Binding>)
    requires forall i :: 0 <= i < |bindings| ==> SafeBinding(bindings[i])
    requires Matches(letter.subject) == [] && Matches(letter.content) == []
    ensures Populate(letter, bindings) == letter
  {
    NoMatchesIffNoRun(letter.subject);
    NoMatchesIffNoRun(letter.content);
    forall i | 0 <= i < |bindings|
      ensures !Contains(letter.subject, Placeholder(bindings[i].key)) && !Contains(letter.content, Placeholder(bindings[i].key))
    {
      if Contains(letter.subject, Placeholder(bindings[i].key)) {
        PlaceholderIsRun(letter.subject, bindings[i].key);
      }
      if Contains(letter.content, Placeholder(bindings[i].key)) {
        PlaceholderIsRun(letter.content, bindings[i].key);
      }
    }
    PopulateWithoutPlaceholders(letter, bindings);
  }

  // ---------------------------------------------------------------------
  // The `variables` field: `variables.join(',')` on write, `split(',')` on read
  // ---------------------------------------------------------------------

  /** `variables.join(',')`. */
  function StoreVariables(names: seq<string>): (stored: string)
    ensures names == [] ==> stored == ""
    ensures |names| > 0 && names[0] != "" ==> stored != ""
  {
    Join(names, ",")
  }

  /** `item.variables ? item.variables.split(',') : []`. */
  function LoadVariables(stored: Option<string>): (names: seq<string>)
    ensures OrDefault(stored, "") == "" ==> names == []
    ensures OrDefault(stored, "") != "" ==> |names| >= 1
  {
    if OrDefault(stored, "") == "" then [] else Split(stored.value, ",")
  }

  /** Storing then loading gives the names back when every name is non-empty and holds no comma. */
  lemma VariablesRoundTrip(names: seq<string>)
    requires forall k :: 0 <= k < |names| ==> names[k] != "" && ',' !in names[k]
    ensures LoadVariables(Some(StoreVariables(names))) == names
  {
    if |names| > 0 {
      SplitJoin(names, ',');
    }
  }

  /** The extracted names survive storage when none of them holds a comma. */
  lemma ExtractedVariablesRoundTrip(content: string, subject: string)
    requires forall k :: 0 <= k < |ExtractVariables(content, subject)| ==> ',' !in ExtractVariables(content, subject)[k]
    ensures LoadVariables(Some(StoreVariables(ExtractVariables(content, subject)))) == ExtractVariables(content, subject)
  {
    VariablesRoundTrip(ExtractVariables(content, subject));
  }

  // ---------------------------------------------------------------------
  // Records: what create and update send, how a stored record is read
  // ---------------------------------------------------------------------

  /** `templateData` as a caller passes it; any `variables` it carries is ignored. */
  datatype TemplateInput = TemplateInput(
    name: Option<string>, category: Option<string>, subject: Option<string>, content: Option<string>,
    variables: Option<seq<string>>)

  /** The record create (`Id` absent) and update (`Id` = the parsed id) send to the store. */
  datatype TemplateRecord = TemplateRecord(
    Id: Option<int>, Name: string, category: string, subject: string, content: string, variables: string)

  /** A record as the store returns it; fields may be missing. */
  datatype StoredTemplate = StoredTemplate(
    Id: int, Name: Option<string>, category: Option<string>, subject: Option<string>, content: Option<string>,
    variables: Option<string>, CreatedOn: Option<string>, ModifiedOn: Option<string>)

  /** A template as the service hands it to its callers. */
  datatype Template = Template(
    Id: int, name: string, category: string, subject: string, content: string,
    variables: seq<string>, createdAt: Option<string>, updatedAt: Option<string>)

  const UNTITLED_TEMPLATE := "Untitled Template"
  const GENERAL_CATEGORY := "General"

  /**
   * The record the create and update paths build: name and category defaults,
   * and `variables` recomputed from the content and subject actually sent.
   */
  function ToRecord(id: Option<int>, input: TemplateInput): (r: TemplateRecord)
    ensures r.Id == id
    ensures r.Name != "" && r.category != ""
    ensures r.Name == OrDefault(input.name, UNTITLED_TEMPLATE) && r.category == OrDefault(input.category, GENERAL_CATEGORY)
    ensures input.name.Some? && input.name.value != "" ==> r.Name == input.name.value
    ensures input.category.Some? && input.category.value != "" ==> r.category == input.category.value
    ensures r.subject == OrDefault(input.subject, "") && r.content == OrDefault(input.content, "")
    ensures r.variables == StoreVariables(ExtractVariables(r.content, r.subject))
  {
    var subject := OrDefault(input.subject, "");
    var content := OrDefault(input.content, "");
    TemplateRecord(id, OrDefault(input.name, UNTITLED_TEMPLATE), OrDefault(input.category, GENERAL_CATEGORY),
                   subject, content, StoreVariables(ExtractVariables(content, subject)))
  }

  /** The read mapping of `getAll`, `getById` and the create and update results. */
  function FromStored(item: StoredTemplate): (t: Template)
    ensures t.Id == item.Id && t.createdAt == item.CreatedOn && t.updatedAt == item.ModifiedOn
    ensures item.Name.Some? && item.Name.value != "" ==> t.name == item.Name.value
    ensures item.Name.None? ==> t.name == ""
    ensures item.content.None? ==> t.content == ""
    ensures item.subject.None? ==> t.subject == ""
    ensures t.name == OrDefault(item.Name, "") && t.category == OrDefault(item.category, "")
    ensures t.subject == OrDefault(item.subject, "") && t.content == OrDefault(item.content, "")
    ensures t.variables == [] <==> (item.variables.None? || item.variables.value == "")
    ensures item.variables.Some? && item.variables.value != "" ==> t.variables == Split(item.variables.value, ",")
  {
    Template(item.Id, OrDefault(item.Name, ""), OrDefault(item.category, ""), OrDefault(item.subject, ""),
             OrDefault(item.content, ""), LoadVariables(item.variables), item.CreatedOn, item.ModifiedOn)
  }

  /** The record as the store holds it after a write of `r`, with the timestamps the store adds. */
  function Stored(id: int, r: TemplateRecord, createdOn: Option<string>, modifiedOn: Option<string>): StoredTemplate
  {
    StoredTemplate(id, Some(r.Name), Some(r.category), Some(r.subject), Some(r.content), Some(r.variables),
                   createdOn, modifiedOn)
  }

  /**
   * The derived-field invariant across a write and a read: the `variables` read
   * back are the names extracted from the content and subject read back, and
   * name and category are never empty.
   */
  lemma WrittenTemplateReadsBack(id: int, key: Option<int>, input: TemplateInput, createdOn: Option<string>, modifiedOn: Option<string>)
    requires var r := ToRecord(key, input);
      forall k :: 0 <= k < |ExtractVariables(r.content, r.subject)| ==> ',' !in ExtractVariables(r.content, r.subject)[k]
    ensures var t := FromStored(Stored(id, ToRecord(key, input), createdOn, modifiedOn));
      && t.variables == ExtractVariables(t.content, t.subject)
      && t.name != "" && t.category != ""
      && t.subject == OrDefault(input.subject, "") && t.content == OrDefault(input.content, "")
  {
    var r := ToRecord(key, input);
    ExtractedVariablesRoundTrip(r.content, r.subject);
  }

  // ---------------------------------------------------------------------
  // Remote answers
  // ---------------------------------------------------------------------

  /** `getAll`: the mapped records, or `[]` when the fetch failed. */
  function GetAll(resp: FetchResponse<StoredTemplate>): (ts: seq<Template>)
    ensures !resp.success ==> ts == []
    ensures resp.success ==> |ts| == |resp.data| && forall i :: 0 <= i < |ts| ==> ts[i] == FromStored(resp.data[i])
  {
    if !resp.success then [] else seq(|resp.data|, i requires 0 <= i < |resp.data| => FromStored(resp.data[i]))
  }

  /** `getById`: `null` when the call failed or found nothing. */
  function GetById(resp: GetResponse<StoredTemplate>): (t: Option<Template>)
    ensures t.Some? <==> resp.success && resp.data.Some?
    ensures t.Some? ==> t.value == FromStored(resp.data.value)
  {
    if !resp.success || resp.data.None? then None else Some(FromStored(resp.data.value))
  }

  /** The create and update outcome: the first successful result, mapped; otherwise `new Error(failure)`. */
  function FirstTemplate(resp: MutationResponse<StoredTemplate>, failure: string): (r: Result<Template>)
    ensures r.Ok? <==>
      resp.success && resp.results.Some? && exists i :: 0 <= i < |resp.results.value| && resp.results.value[i].Succeeded?
    ensures r.Ok? ==>
      exists i :: 0 <= i < |resp.results.value| && resp.results.value[i].Succeeded?
        && r.value == FromStored(resp.results.value[i].data)
        && forall k :: 0 <= k < i ==> resp.results.value[k].Failed?
    ensures r.Err? ==> r.message == failure
  {
    match FirstSuccess(resp, failure)
    case Ok(item) => Ok(FromStored(item))
    case Err(m) => Err(m)
  }

  function CreateOutcome(resp: MutationResponse<StoredTemplate>): (r: Result<Template>)
    ensures r.Err? ==> r.message == "Failed to create template"
    ensures resp.results.None? ==> r.Err?
  {
    FirstTemplate(resp, "Failed to create template")
  }

  function UpdateOutcome(resp: MutationResponse<StoredTemplate>): (r: Result<Template>)
    ensures r.Err? ==> r.message == "Failed to update template"
    ensures resp.results.None? ==> r.Err?
  {
    FirstTemplate(resp, "Failed to update template")
  }

  function DeleteOutcome(resp: MutationResponse<StoredTemplate>): (r: Result<bool>)
    ensures r.Err? <==> !resp.success
    ensures r.Err? ==> r.message == "Failed to delete template"
    ensures r == Ok(true) <==>
      resp.success && resp.results.Some? && exists i :: 0 <= i < |resp.results.value| && resp.results.value[i].Succeeded?
  {
    AnySuccess(resp, "Failed to delete template")
  }

  // ---------------------------------------------------------------------
  // getCategories
  // ---------------------------------------------------------------------

  function Categories(templates: seq<Template>): (cs: seq<string>)
    ensures |cs| == |templates| && forall i :: 0 <= i < |cs| ==> cs[i] == templates[i].category
  {
    seq(|templates|, i requires 0 <= i < |templates| => templates[i].category)
  }

  /** `[...new Set(templates.map(t => t.category))].sort()`. */
  function GetCategories(templates: seq<Template>): (cs: seq<string>)
    ensures StrictlySorted(cs)
    ensures forall i, j :: 0 <= i < j < |cs| ==> cs[i] != cs[j]
    ensures forall c :: c in cs <==> exists i :: 0 <= i < |templates| && templates[i].category == c
  {
    var all := Categories(templates);
    SortDistinct(all);
    Sort(Distinct(all))
  }

  /** Sorting the distinct elements gives a strictly sorted list without repeats holding exactly the elements. */
  lemma SortDistinct(xs: seq<string>)
    ensures StrictlySorted(Sort(Distinct(xs)))
    ensures forall i, j :: 0 <= i < j < |Sort(Distinct(xs))| ==> Sort(Distinct(xs))[i] != Sort(Distinct(xs))[j]
    ensures forall c :: c in Sort(Distinct(xs)) <==> c in xs
  {
    var d := Distinct(xs);
    var r := Sort(d);
    forall c ensures c in r <==> c in xs {
      assert c in r <==> c in multiset(r);
      assert c in d <==> c in multiset(d);
      if c in xs {
        var k :| 0 <= k < |xs| && xs[k] == c;
      }
      if c in d {
        var k :| 0 <= k < |d| && d[k] == c;
      }
    }
    forall i, j | 0 <= i < j < |r| ensures r[i] != r[j] {
      BelowIrreflexive(r[i]);
    }
  }

  // ---------------------------------------------------------------------
  // Worked cases
  // ---------------------------------------------------------------------

  /** Two placeholders separated by brace-free text yield their two names, in order. */
  lemma TwoPlaceholders(before: string, first: string, between: string, second: string, after: string)
    requires '{' !in before && '{' !in between && '{' !in after
    requires |first| > 0 && '}' !in first && |second| > 0 && '}' !in second
    ensures Matches(before + (Placeholder(first) + (between + (Placeholder(second) + after)))) == [first, second]
  {
    SkipsPrefixWithoutOpen(before, Placeholder(first) + (between + (Placeholder(second) + after)));
    PlaceholderAtFront(first, between + (Placeholder(second) + after));
    SkipsPrefixWithoutOpen(between, Placeholder(second) + after);
    PlaceholderAtFront(second, after);
    WithoutBracesNothing(after);
  }

  /** Content with two different placeholders between brace-free text, and no subject, yields the two names. */
  lemma TwoNamesExtracted(before: string, first: string, between: string, second: string, after: string)
    requires '{' !in before && '{' !in between && '{' !in after
    requires |first| > 0 && '}' !in first && |second| > 0 && '}' !in second && first != second
    ensures ExtractVariables(before + (Placeholder(first) + (between + (Placeholder(second) + after))), "") == [first, second]
  {
    var content := before + (Placeholder(first) + (between + (Placeholder(second) + after)));
    assert content + " " + "" == before + (Placeholder(first) + (between + (Placeholder(second) + (after + " "))));
    TwoPlaceholders(before, first, between, second, after + " ");
    DistinctPair(first, second);
  }

  lemma ExampleTwoNames()
    ensures ExtractVariables("Hello {name}, welcome to {company}", "") == ["name", "company"]
  {
    assert "Hello {name}, welcome to {company}" == "Hello " + (Placeholder("name") + (", welcome to " + (Placeholder("company") + "")));
    TwoNamesExtracted("Hello ", "name", ", welcome to ", "company", "");
  }

  /** Two different names stay as they are. */
  lemma DistinctPair(x: string, y: string)
    requires x != y
    ensures Distinct([x, y]) == [x, y]
  {
    assert [x, y][..1] == [x];
    assert [x][..0] == [];
  }

  /** The scan lists a repeated placeholder once per occurrence. */
  lemma RepeatsMatched(a: string, b: string, after: string)
    requires |a| > 0 && '}' !in a && |b| > 0 && '}' !in b && '{' !in after
    ensures Matches(Placeholder(a) + (Placeholder(a) + (Placeholder(b) + after))) == [a, a, b]
  {
    PlaceholderAtFront(a, Placeholder(a) + (Placeholder(b) + after));
    PlaceholderAtFront(a, Placeholder(b) + after);
    PlaceholderAtFront(b, after);
    WithoutBracesNothing(after);
  }

  /** `Set` drops the repeat and keeps the first occurrence. */
  lemma RepeatsDropped(a: string, b: string)
    requires a != b
    ensures Distinct([a, a, b]) == [a, b]
  {
    assert [a, a, b][..2] == [a, a];
    assert [a, a][..1] == [a];
    DistinctSingle(a);
  }

  lemma ExampleRepeatsCollapse()
    ensures ExtractVariables("{a}{a}{b}", "") == ["a", "b"]
  {
    assert "{a}{a}{b}" + " " + "" == Placeholder("a") + (Placeholder("a") + (Placeholder("b") + " "));
    RepeatsMatched("a", "b", " ");
    RepeatsDropped("a", "b");
  }

  /** A single name stays as it is. */
  lemma DistinctSingle(x: string)
    ensures Distinct([x]) == [x]
  {
    assert [x][..0] == [];
  }

  /** `{{x}}` yields the name `{x`: the match starts at the first `{` and ends at the first `}`. */
  lemma ExampleNestedBraces()
    ensures ExtractVariables("{{x}}", "") == ["{x"]
  {
    assert "{{x}}" + " " + "" == Placeholder("{x") + "} ";
    PlaceholderAtFront("{x", "} ");
    WithoutBracesNothing("} ");
    DistinctSingle("{x");
  }

  /** `{}` yields nothing: the `+` needs at least one character between the braces. */
  lemma ExampleEmptyBraces()
    ensures ExtractVariables("{}", "") == []
  {
    var t := "{}" + " " + "";
    assert t == "{} ";
    assert !MatchesAtFront(t);
    assert t[1..] == "} ";
    WithoutBracesNothing("} ");
  }

  /** An unclosed `{x` yields nothing. */
  lemma ExampleUnclosed()
    ensures ExtractVariables("{x", "") == []
  {
    assert "{x" + " " + "" == "{x ";
    WithoutBracesNothing("{x ");
  }

  /** A placeholder can straddle the joining space: the name `a b` occurs in neither part. */
  lemma ExampleStraddle()
    ensures ExtractVariables("{a", "b}") == ["a b"]
  {
    assert "{a" + " " + "b}" == Placeholder("a b") + "";
    PlaceholderAtFront("a b", "");
  }

  /** A stored name `x,y` comes back as the two names `x` and `y`. */
  lemma CommaNameSplits(x: string, y: string)
    requires ',' !in x && ',' !in y
    ensures LoadVariables(Some(StoreVariables([x + "," + y]))) == [x, y]
  {
    var n := x + "," + y;
    assert Join([n], ",") == n;
    assert n == x + [','] + y;
    SplitAtFirstSeparator(x, ',', y);
    SplitWithoutSeparator(y, ',');
  }

  /** A name holding a comma does not survive storage: `{a,b}` is read back as `a` and `b`. */
  lemma ExampleCommaSplits()
    ensures LoadVariables(Some(StoreVariables(ExtractVariables("{a,b}", "")))) == ["a", "b"]
  {
    assert "{a,b}" + " " + "" == Placeholder("a,b") + " ";
    PlaceholderAtFront("a,b", " ");
    WithoutBracesNothing(" ");
    DistinctSingle("a,b");
    assert "a,b" == "a" + "," + "b";
    CommaNameSplits("a", "b");
  }

  /** An empty value keeps the placeholder rather than blanking it. */
  lemma ExampleEmptyValueKeepsPlaceholder()
    ensures Populate(Letter("{x}", "{x}"), [Binding("x", Some(""))]) == Letter("{x}", "{x}")
  {
    assert [Binding("x", Some(""))][..0] == [];
    UnboundLeavesText("{x}", Binding("x", Some("")));
  }
}
