/**
 `extract_missing_module` and the branch of `execute_code` that uses it.
 The extraction is written with Python's `in`, `str.find` and slice semantics:
 with fewer than two `'` characters a `find` returns -1, and the slice then
 takes -1 as an end bound counted from the end of the message.
 */
module MissingModule {
  import opened Wrappers
  import opened PyStr

  /** What the extraction looks for before anything else. */
  const NoModuleMarker := "No module named"

  /** What the caller looks for in the error output. */
  const ErrorName := "ModuleNotFoundError"

  /** `error_message.find("'")` from the start, and from a given index. */
  function QuoteFind(msg: string, start: int): int {
    Find(msg, "'", start)
  }

  /** `extract_missing_module`: the slice between the first `'` and the next one, when the marker is present. */
  function ExtractMissingModule(msg: string): (r: Option<string>)
    ensures r.None? <==> !Contains(msg, NoModuleMarker)
  {
    if Contains(msg, NoModuleMarker) then
      var start := QuoteFind(msg, 0) + 1;
      var end := QuoteFind(msg, start);
      Some(Slice(msg, start, end))
    else
      None
  }

  /** What `execute_code` does with the error output of a failed run. */
  datatype Failure =
    | InstallModule(name: string)   // pip install of the extracted name, then a retry
    | CannotExtract                 // "Unable to extract module name from error"
    | ReportError                   // "Error executing code", not a missing module

  /** The branch taken on a failed run: an empty or absent name counts as "unable to extract". */
  function ClassifyFailure(stderr: string): (f: Failure)
    ensures f.InstallModule? ==> f.name != "" && ExtractMissingModule(stderr) == Some(f.name)
    ensures Contains(stderr, ErrorName) && ExtractMissingModule(stderr).Some? && ExtractMissingModule(stderr).value != ""
      ==> f == InstallModule(ExtractMissingModule(stderr).value)
    ensures f.ReportError? <==> !Contains(stderr, ErrorName)
  {
    if Contains(stderr, ErrorName) then
      match ExtractMissingModule(stderr)
      case Some(name) => if name != "" then InstallModule(name) else CannotExtract
      case None => CannotExtract
    else
      ReportError
  }

  /** The character `'` does not occur in `s`. */
  predicate NoQuote(s: string) {
    forall k :: 0 <= k < |s| ==> s[k] != '\''
  }

  /** A one-character search is the first index at or after `i` holding that character. */
  lemma FindCharFrom(s: string, i: nat, j: int)
    requires i <= j < |s| && s[j] == '\''
    requires forall k :: i <= k < j ==> s[k] != '\''
    ensures FindFrom(s, "'", i) == j
  {
    assert OccursAt(s, "'", j) by { assert s[j..j + 1] == [s[j]]; }
    forall k | i <= k < j ensures !OccursAt(s, "'", k) {
      assert s[k..k + 1] == [s[k]];
    }
  }

  /** No `'` at or after `i`: the search finds nothing. */
  lemma FindCharAbsent(s: string, i: nat)
    requires i <= |s|
    requires forall k :: i <= k < |s| ==> s[k] != '\''
    ensures FindFrom(s, "'", i) == -1
  {
    forall k | i <= k ensures !OccursAt(s, "'", k) {
      if k + 1 <= |s| {
        assert s[k..k + 1] == [s[k]];
      }
    }
  }

  /** With two `'` characters or more, the result is the text strictly between the first two, and it holds no `'`. */
  lemma TwoQuotes(msg: string, i: nat, j: nat)
    requires Contains(msg, NoModuleMarker)
    requires i < j < |msg| && msg[i] == '\'' && msg[j] == '\''
    requires forall k :: 0 <= k < i ==> msg[k] != '\''
    requires forall k :: i < k < j ==> msg[k] != '\''
    ensures ExtractMissingModule(msg) == Some(msg[i + 1..j])
    ensures NoQuote(ExtractMissingModule(msg).value)
  {
    FindCharFrom(msg, 0, i);
    FindCharFrom(msg, i + 1, j);
    var start := QuoteFind(msg, 0) + 1;
    assert start == i + 1;
    var end := QuoteFind(msg, start);
    assert end == j;
    assert Slice(msg, start, end) == msg[start..end] by {
      assert SliceBound(start, |msg|) == start && SliceBound(end, |msg|) == end;
    }
    assert ExtractMissingModule(msg) == Some(Slice(msg, start, end));
    NoQuoteBetween(msg, i, j);
  }

  lemma NoQuoteBetween(msg: string, i: nat, j: nat)
    requires i < j <= |msg|
    requires forall k :: i < k < j ==> msg[k] != '\''
    ensures NoQuote(msg[i + 1..j])
  {
    var between := msg[i + 1..j];
    forall k | 0 <= k < |between| ensures between[k] != '\'' {
      assert between[k] == msg[i + 1 + k];
    }
  }

  /** With no `'` at all, the end bound is -1: the result is the whole message but its last character. */
  lemma NoQuoteQuirk(msg: string)
    requires Contains(msg, NoModuleMarker) && NoQuote(msg)
    ensures |msg| > 0 && ExtractMissingModule(msg) == Some(msg[..|msg| - 1])
  {
    FindCharAbsent(msg, 0);
  }

  /** With exactly one `'`, at `i`, the result runs from after it to before the last character (empty when the quote is at one of the last two places). */
  lemma OneQuoteQuirk(msg: string, i: nat)
    requires Contains(msg, NoModuleMarker)
    requires i < |msg| && msg[i] == '\''
    requires forall k :: 0 <= k < |msg| && k != i ==> msg[k] != '\''
    ensures ExtractMissingModule(msg) == Some(if i + 1 < |msg| - 1 then msg[i + 1..|msg| - 1] else "")
  {
    FindCharFrom(msg, 0, i);
    FindCharAbsent(msg, i + 1);
  }

  /** What Python prints before the missing name: `ModuleNotFoundError: No module named '`. */
  const MissingModuleLead := ErrorName + ": " + NoModuleMarker + " '"

  /** Where the two names and the opening quote sit in the lead. */
  lemma LeadShape()
    ensures |MissingModuleLead| == 38
    ensures MissingModuleLead[..19] == ErrorName
    ensures MissingModuleLead[21..36] == NoModuleMarker
    ensures MissingModuleLead[37] == '\''
    ensures forall k :: 0 <= k < 37 ==> MissingModuleLead[k] != '\''
  {
  }

  /**
   The message Python prints for a missing module, preceded by a traceback
   without `'` and followed by anything (the rest of the error output): the
   name comes out exactly, and a non-empty name leads to its installation.
   */
  lemma StandardMessage(traceback: string, name: string, rest: string)
    requires NoQuote(traceback) && NoQuote(name)
    ensures var msg := traceback + MissingModuleLead + name + "'" + rest;
      && ExtractMissingModule(msg) == Some(name)
      && (name != "" ==> ClassifyFailure(msg) == InstallModule(name))
      && (name == "" ==> ClassifyFailure(msg) == CannotExtract)
  {
    var pre := traceback + MissingModuleLead;
    var n := |traceback|;
    AfterTraceback(traceback);
    QuotedName(pre, name, rest, n + 21);
    OccursBeforeName(pre, name, rest, ErrorName, n);
  }

  /** The traceback followed by the lead: both names in place, and its only `'` is the last character. */
  lemma AfterTraceback(traceback: string)
    requires NoQuote(traceback)
    ensures var pre := traceback + MissingModuleLead;
      var n := |traceback|;
      && |pre| == n + 38
      && pre[|pre| - 1] == '\''
      && (forall k :: 0 <= k < |pre| - 1 ==> pre[k] != '\'')
      && pre[n..n + 19] == ErrorName
      && pre[n + 21..n + 36] == NoModuleMarker
  {
    var pre := traceback + MissingModuleLead;
    var n := |traceback|;
    LeadShape();
    forall k | 0 <= k < |pre| - 1 ensures pre[k] != '\'' {
      if k >= n {
        assert pre[k] == MissingModuleLead[k - n];
      }
    }
    assert pre[n..n + 19] == MissingModuleLead[..19];
    assert pre[n + 21..n + 36] == MissingModuleLead[21..36];
  }

  /**
   A message made of text that holds the marker and ends in its first `'`,
   a name without `'`, a closing `'` and anything after it gives that name.
   */
  lemma QuotedName(pre: string, name: string, rest: string, p: nat)
    requires |pre| > 0 && pre[|pre| - 1] == '\''
    requires forall k :: 0 <= k < |pre| - 1 ==> pre[k] != '\''
    requires NoQuote(name)
    requires p + |NoModuleMarker| <= |pre| && pre[p..p + |NoModuleMarker|] == NoModuleMarker
    ensures ExtractMissingModule(pre + name + "'" + rest) == Some(name)
  {
    var msg := pre + name + "'" + rest;
    var i := |pre| - 1;
    var j := |pre| + |name|;
    OccursBeforeName(pre, name, rest, NoModuleMarker, p);
    assert msg[i] == '\'' && msg[j] == '\'';
    forall k | 0 <= k < i ensures msg[k] != '\'' {
      assert msg[k] == pre[k];
    }
    forall k | i < k < j ensures msg[k] != '\'' {
      assert msg[k] == name[k - i - 1];
    }
    assert msg[i + 1..j] == name;
    TwoQuotes(msg, i, j);
  }

  /** An occurrence in `pre` at `p` is one in the whole message. */
  lemma OccursBeforeName(pre: string, name: string, rest: string, sub: string, p: nat)
    requires p + |sub| <= |pre| && pre[p..p + |sub|] == sub
    ensures Contains(pre + name + "'" + rest, sub)
  {
    var msg := pre + name + "'" + rest;
    assert msg[p..p + |sub|] == pre[p..p + |sub|];
    assert OccursAt(msg, sub, p);
  }
}
