/**
 * The exclusion gate `shouldExclude`: the stored list of excluded domains is
 * split into lines, each line trimmed, blank lines dropped, and the page is
 * excluded when its host name contains one of the remaining entries.
 */
module Exclusion {
  import opened Wrappers
  import opened Strings
  import opened Settings

  /** `.map((d) => d.trim())` */
  function TrimAll(lines: seq<string>): (r: seq<string>)
    ensures |r| == |lines|
    ensures forall i :: 0 <= i < |r| ==> r[i] == Trim(lines[i])
  {
    if lines == [] then [] else [Trim(lines[0])] + TrimAll(lines[1..])
  }

  /** `.filter(Boolean)`: the non-empty strings, in order. */
  function NonEmpty(ss: seq<string>): (r: seq<string>)
    ensures forall e :: e in r <==> e in ss && e != ""
  {
    if ss == [] then []
    else if ss[0] == "" then NonEmpty(ss[1..])
    else [ss[0]] + NonEmpty(ss[1..])
  }

  /** `e` is what some line of `lines` trims to, and is not blank. */
  predicate EntryOf(lines: seq<string>, e: string)
  {
    e != "" && exists i :: 0 <= i < |lines| && e == Trim(lines[i])
  }

  /** The entries of the exclusion list: its lines, trimmed, blank ones dropped. */
  function Entries(list: string): (r: seq<string>)
    ensures forall e :: e in r <==> EntryOf(Split(list, '\n'), e)
  {
    var lines := Split(list, '\n');
    TrimmedLines(lines);
    NonEmpty(TrimAll(lines))
  }

  /** The non-blank trimmed lines are the trimmings of some line. */
  lemma TrimmedLines(lines: seq<string>)
    ensures forall e :: e in NonEmpty(TrimAll(lines)) <==> EntryOf(lines, e)
  {
    var trimmed := TrimAll(lines);
    assert forall e :: e in trimmed <==> exists i :: 0 <= i < |trimmed| && e == trimmed[i];
  }

  /** `.some((domain) => currentDomain.includes(domain))` */
  function AnyContained(domains: seq<string>, host: string): (r: bool)
    ensures r <==> exists i :: 0 <= i < |domains| && Contains(host, domains[i])
  {
    if domains == [] then false
    else
      var r := Contains(host, domains[0]) || AnyContained(domains[1..], host);
      assert forall i :: 1 <= i < |domains| ==> domains[i] == domains[1..][i - 1];
      r
  }

  /** One line of the list excludes `host`: trimmed, it is non-blank and
      occurs in the host name. */
  predicate LineExcludes(host: string, line: string)
  {
    Trim(line) != "" && Contains(host, Trim(line))
  }

  /** The map/filter/some chain finds a match exactly when some line excludes the host. */
  lemma EntriesMatch(lines: seq<string>, host: string)
    ensures AnyContained(NonEmpty(TrimAll(lines)), host) ==>
      exists i :: 0 <= i < |lines| && LineExcludes(host, lines[i])
    ensures (exists i :: 0 <= i < |lines| && LineExcludes(host, lines[i])) ==>
      AnyContained(NonEmpty(TrimAll(lines)), host)
  {
    var trimmed := TrimAll(lines);
    var entries := NonEmpty(trimmed);
    if AnyContained(entries, host) {
      var j :| 0 <= j < |entries| && Contains(host, entries[j]);
      assert entries[j] in entries;
      var i :| 0 <= i < |trimmed| && trimmed[i] == entries[j];
      assert LineExcludes(host, lines[i]);
    }
    if exists i :: 0 <= i < |lines| && LineExcludes(host, lines[i]) {
      var i :| 0 <= i < |lines| && LineExcludes(host, lines[i]);
      assert trimmed[i] in trimmed;
      assert trimmed[i] in entries;
      var j :| 0 <= j < |entries| && entries[j] == trimmed[i];
    }
  }

  /** `shouldExclude`: never when the list is absent or empty; otherwise
      exactly when the host name contains some trimmed, non-blank line of it
      (a substring test, not a suffix or label match). */
  function ShouldExclude(settings: Option<Settings>, hostname: string): (r: bool)
    ensures settings.None? || settings.value.exclusionDomains == "" ==> !r
    ensures r ==> exists i :: 0 <= i < |Lines(settings)| && LineExcludes(hostname, Lines(settings)[i])
    ensures settings.Some? && settings.value.exclusionDomains != "" ==>
              (exists i :: 0 <= i < |Lines(settings)| && LineExcludes(hostname, Lines(settings)[i])) ==> r
  {
    if settings.None? || settings.value.exclusionDomains == "" then false
    else
      EntriesMatch(Lines(settings), hostname);
      AnyContained(Entries(settings.value.exclusionDomains), hostname)
  }

  /** The lines of the stored exclusion list (none when there are no settings). */
  function Lines(settings: Option<Settings>): seq<string>
  {
    if settings.None? then [] else Split(settings.value.exclusionDomains, '\n')
  }

  /** A line of a non-empty list that excludes the host is enough. */
  lemma ExcludedByLine(s: Settings, hostname: string, i: nat)
    requires s.exclusionDomains != "" && i < |Lines(Some(s))|
    requires LineExcludes(hostname, Lines(Some(s))[i])
    ensures ShouldExclude(Some(s), hostname)
  {
  }

  /** An excluded host is excluded by some line of the list. */
  lemma ExcludingLine(s: Settings, hostname: string) returns (i: nat)
    requires ShouldExclude(Some(s), hostname)
    ensures i < |Lines(Some(s))| && LineExcludes(hostname, Lines(Some(s))[i])
  {
    i :| 0 <= i < |Lines(Some(s))| && LineExcludes(hostname, Lines(Some(s))[i]);
  }

  /** Adding lines to a non-empty exclusion list never lets an excluded host through. */
  lemma AddingLinesKeepsExclusions(s: Settings, more: string, hostname: string)
    requires ShouldExclude(Some(s), hostname)
    ensures ShouldExclude(Some(s.(exclusionDomains := s.exclusionDomains + "\n" + more)), hostname)
  {
    var s2 := s.(exclusionDomains := s.exclusionDomains + "\n" + more);
    var i := ExcludingLine(s, hostname);
    AppendedLines(s, more);
    assert Lines(Some(s2))[i] == Lines(Some(s))[i];
    ExcludedByLine(s2, hostname, i);
  }

  /** The lines after appending `more` are the old lines followed by those of `more`. */
  lemma AppendedLines(s: Settings, more: string)
    ensures Lines(Some(s.(exclusionDomains := s.exclusionDomains + "\n" + more)))
         == Lines(Some(s)) + Split(more, '\n')
  {
    assert s.exclusionDomains + "\n" + more == s.exclusionDomains + ['\n'] + more;
    SplitConcat(s.exclusionDomains, '\n', more);
  }

  /** A line holding only whitespace (and no line break) excludes nothing. */
  lemma BlankLineExcludesNothing(blank: string, hostname: string)
    requires forall i :: 0 <= i < |blank| ==> IsWhitespace(blank[i])
    ensures !LineExcludes(hostname, blank)
  {
    TrimEmpty(blank);
  }

  /** Appending a blank line leaves the verdict unchanged. */
  lemma BlankLineIgnored(s: Settings, blank: string, hostname: string)
    requires s.exclusionDomains != ""
    requires '\n' !in blank
    requires forall i :: 0 <= i < |blank| ==> IsWhitespace(blank[i])
    ensures ShouldExclude(Some(s.(exclusionDomains := s.exclusionDomains + "\n" + blank)), hostname)
        == ShouldExclude(Some(s), hostname)
  {
    var s2 := s.(exclusionDomains := s.exclusionDomains + "\n" + blank);
    if ShouldExclude(Some(s2), hostname) {
      var i := ExcludingLine(s2, hostname);
      AppendedLines(s, blank);
      SplitSeparatorFree(blank, '\n');
      BlankLineExcludesNothing(blank, hostname);
      assert i < |Lines(Some(s))| && Lines(Some(s2))[i] == Lines(Some(s))[i];
      ExcludedByLine(s, hostname, i);
    }
    if ShouldExclude(Some(s), hostname) {
      AddingLinesKeepsExclusions(s, blank, hostname);
    }
  }

  /** A list holding a single entry excludes exactly the hosts that entry excludes. */
  lemma SingleEntry(s: Settings, hostname: string)
    requires s.exclusionDomains != "" && '\n' !in s.exclusionDomains
    ensures ShouldExclude(Some(s), hostname) == LineExcludes(hostname, s.exclusionDomains)
  {
    SplitSeparatorFree(s.exclusionDomains, '\n');
    assert Lines(Some(s)) == [s.exclusionDomains];
  }

  /** The substring match at work: a list holding only `domain` excludes every
      host name that contains it, subdomains (`sub + "." + domain`) included. */
  lemma SubdomainExcluded(s: Settings, domain: string, sub: string)
    requires s.exclusionDomains == domain && domain != [] && '\n' !in domain
    requires !IsWhitespace(domain[0]) && !IsWhitespace(domain[|domain| - 1])
    ensures ShouldExclude(Some(s), sub + "." + domain)
  {
    var host := sub + "." + domain;
    assert LineExcludes(host, domain) by {
      assert Trim(domain) == domain;
      assert host[|sub| + 1..] == domain;
      OccursAtContains(host, domain, |sub| + 1);
    }
    SingleEntry(s, host);
  }
}
