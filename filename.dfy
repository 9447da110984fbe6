/**
 * `generateFilename`: the name given to an assembled PDF. With automatic
 * renaming on and a non-empty page title, the title is cleaned of the
 * characters file systems refuse, trimmed, cut to 100 characters and given a
 * ".pdf" suffix when it lacks one; otherwise the name is "download.pdf".
 */
module Filename {
  import opened Wrappers
  import opened Strings
  import opened Settings

  /** The name used when the title is not used. */
  const DefaultName: string := "download.pdf"

  /** Longest kept stem, before a ".pdf" suffix is added. */
  const MaxStem: nat := 100

  /** The class `[/\\?%*:|"<>]` of the replacing regular expression. */
  predicate IsForbidden(c: char)
  {
    c == '/' || c == '\\' || c == '?' || c == '%' || c == '*' || c == ':' || c == '|'
    || c == '"' || c == '<' || c == '>'
  }

  /** What one character of the title becomes. */
  function Replacement(c: char): char
  {
    if IsForbidden(c) then '-' else c
  }

  /** `replace(/[/\\?%*:|"<>]/g, "-")`: every forbidden character becomes a dash. */
  function ReplaceForbidden(s: string): (r: string)
    ensures |r| == |s|
    ensures forall i :: 0 <= i < |s| ==> r[i] == Replacement(s[i])
    ensures forall i :: 0 <= i < |r| ==> !IsForbidden(r[i])
  {
    if s == [] then [] else [Replacement(s[0])] + ReplaceForbidden(s[1..])
  }

  /** `piece` is the replaced image of the title's characters from `k` on. */
  predicate Replaced(title: string, k: int, piece: string)
  {
    0 <= k && k + |piece| <= |title| &&
    forall i :: 0 <= i < |piece| ==> piece[i] == Replacement(title[k + i])
  }

  /** No character of `s` is one the replacement would change. */
  predicate Safe(s: string)
  {
    forall i :: 0 <= i < |s| ==> !IsForbidden(s[i])
  }

  /** `c` is the stem of `title` when the title's first non-whitespace
      character is at `k`: the replaced image of the characters from `k` on,
      at most `MaxStem` of them. A shorter stem reaches the last
      non-whitespace character; a stem of full length stops before some
      non-whitespace character or at it. */
  predicate StemAt(title: string, k: int, c: string)
  {
    0 <= k <= |title| && k + |c| <= |title| && |c| <= MaxStem
    && (forall i :: 0 <= i < |c| ==> c[i] == Replacement(title[k + i]))
    && (forall i :: 0 <= i < k ==> IsWhitespace(title[i]))
    && (k < |title| ==> !IsWhitespace(title[k]))
    && (|c| < MaxStem ==>
          (forall i :: k + |c| <= i < |title| ==> IsWhitespace(title[i]))
          && (c != [] ==> !IsWhitespace(c[|c| - 1])))
    && (|c| == MaxStem ==> exists j :: k + MaxStem <= j + 1 && j < |title| && !IsWhitespace(title[j]))
  }

  /** The cleaned title: replaced, trimmed and cut to `MaxStem` characters. */
  function Stem(title: string): (c: string)
    ensures |c| <= MaxStem
    ensures Safe(c)
    ensures c != [] ==> !IsWhitespace(c[0])
    ensures exists k :: Replaced(title, k, c)
    ensures exists k :: StemAt(title, k, c)
  {
    var t := Trim(ReplaceForbidden(title));
    var c := if |t| > MaxStem then t[..MaxStem] else t;
    StemOfTrimmed(title, t, c);
    c
  }

  /** Replacement neither makes nor removes whitespace. */
  lemma WhitespaceKept(x: char)
    ensures IsWhitespace(Replacement(x)) <==> IsWhitespace(x)
  {
  }

  /** A prefix of the trimmed, replaced title, cut at `MaxStem` characters,
      has the properties of the stem. */
  lemma StemOfTrimmed(title: string, t: string, c: string)
    requires t == Trim(ReplaceForbidden(title))
    requires |c| <= MaxStem && |c| <= |t| && c == t[..|c|]
    requires |t| > MaxStem ==> |c| == MaxStem
    requires |t| <= MaxStem ==> c == t
    ensures Safe(c)
    ensures c != [] ==> !IsWhitespace(c[0])
    ensures exists k :: Replaced(title, k, c)
    ensures exists k :: StemAt(title, k, c)
  {
    var rf := ReplaceForbidden(title);
    var k :| TrimmedAt(rf, t, k);
    PrefixReplaced(title, rf, t, k, c);
    if t == [] {
      EmptyStem(title, rf, k);
      assert StemAt(title, |title|, c);
    } else {
      TrimmedStem(title, rf, t, k, c);
    }
  }

  /** A prefix of a run of the replaced title is the replaced image of the
      title's characters there, and is safe. */
  lemma PrefixReplaced(title: string, rf: string, t: string, k: int, c: string)
    requires rf == ReplaceForbidden(title) && OccursAt(rf, t, k)
    requires |c| <= |t| && c == t[..|c|]
    ensures Replaced(title, k, c) && Safe(c)
    ensures c != [] ==> c[0] == t[0]
  {
    forall i | 0 <= i < |c| ensures c[i] == rf[k + i] {
      assert c[i] == t[i] == rf[k..k + |t|][i];
    }
  }

  /** Whitespace in the replaced title is whitespace in the title. */
  predicate SameWhitespace(title: string, rf: string)
  {
    |rf| == |title| && forall i :: 0 <= i < |title| ==> (IsWhitespace(rf[i]) <==> IsWhitespace(title[i]))
  }

  /** The replaced title has its whitespace where the title has it. */
  lemma ReplacedWhitespace(title: string)
    ensures SameWhitespace(title, ReplaceForbidden(title))
  {
    forall i | 0 <= i < |title| ensures IsWhitespace(ReplaceForbidden(title)[i]) <==> IsWhitespace(title[i]) {
      WhitespaceKept(title[i]);
    }
  }

  /** A title that trims to nothing is all whitespace. */
  lemma EmptyStem(title: string, rf: string, k: int)
    requires rf == ReplaceForbidden(title) && TrimmedAt(rf, [], k)
    ensures forall i :: 0 <= i < |title| ==> IsWhitespace(title[i])
  {
    ReplacedWhitespace(title);
  }

  /** A non-empty trimmed title, cut, is a stem at its first character. */
  lemma TrimmedStem(title: string, rf: string, t: string, k: int, c: string)
    requires rf == ReplaceForbidden(title) && TrimmedAt(rf, t, k) && t != []
    requires !IsWhitespace(t[0]) && !IsWhitespace(t[|t| - 1])
    requires |c| <= MaxStem && |c| <= |t| && c == t[..|c|]
    requires |t| > MaxStem ==> |c| == MaxStem
    requires |t| <= MaxStem ==> c == t
    ensures StemAt(title, k, c)
  {
    ReplacedWhitespace(title);
    OccursAtChars(rf, t, k);
    assert !IsWhitespace(title[k]) by { assert rf[k] == t[0]; }
    assert forall i :: 0 <= i < |c| ==> c[i] == Replacement(title[k + i]) by {
      forall i | 0 <= i < |c| ensures c[i] == Replacement(title[k + i]) {
        assert c[i] == t[i] == rf[k + i];
      }
    }
    if |c| == MaxStem {
      var j := k + |t| - 1;
      assert rf[j] == t[|t| - 1];
      assert k + MaxStem <= j + 1 && j < |title| && !IsWhitespace(title[j]);
    }
  }

  /** The stem conditions pin the stem down: at most one string meets them. */
  lemma StemUnique(title: string, k1: int, c1: string, k2: int, c2: string)
    requires StemAt(title, k1, c1) && StemAt(title, k2, c2)
    ensures c1 == c2
  {
    assert k1 == k2;
    forall i | 0 <= i < |title| ensures IsWhitespace(Replacement(title[i])) <==> IsWhitespace(title[i]) {
      WhitespaceKept(title[i]);
    }
    ShorterStem(title, k1, c1, c2);
    ShorterStem(title, k1, c2, c1);
  }

  /** Two stems at the same place cannot differ in length. */
  lemma ShorterStem(title: string, k: int, short: string, long: string)
    requires StemAt(title, k, short) && StemAt(title, k, long)
    requires forall i :: 0 <= i < |title| ==> (IsWhitespace(Replacement(title[i])) <==> IsWhitespace(title[i]))
    ensures |short| >= |long|
  {
  }

  /** A stem with ".pdf" added unless it already ends so. */
  function WithSuffix(c: string): (r: string)
    ensures EndsWith(r, ".pdf")
    ensures 4 <= |r| <= |c| + 4
    ensures Safe(c) ==> Safe(r)
    ensures c != [] ==> r[0] == c[0]
    ensures c == [] ==> r == ".pdf"
    ensures c == [] || !IsWhitespace(c[0]) ==> !IsWhitespace(r[0])
    ensures |c| <= |r| && r[..|c|] == c && (r[|c|..] == "" || r[|c|..] == ".pdf")
    ensures EndsWith(c, ".pdf") ==> r == c
    ensures !EndsWith(c, ".pdf") ==> r == c + ".pdf"
  {
    if EndsWith(c, ".pdf") then c
    else
      assert (c + ".pdf")[|c|..] == ".pdf";
      c + ".pdf"
  }

  /** The renamed file name built from a non-empty title: the stem with
      ".pdf" added unless it already ends so. */
  function SanitizeTitle(title: string): (r: string)
    ensures EndsWith(r, ".pdf")
    ensures 4 <= |r| <= MaxStem + 4
    ensures Safe(r)
    ensures !IsWhitespace(r[0])
  {
    WithSuffix(Stem(title))
  }

  /** The name is the stem of the title, followed by ".pdf" exactly when
      the stem does not already end so. */
  lemma SanitizeTitleContent(title: string)
    ensures exists k, n :: (0 <= n <= |SanitizeTitle(title)|
      && StemAt(title, k, SanitizeTitle(title)[..n])
      && (EndsWith(SanitizeTitle(title)[..n], ".pdf") ==> n == |SanitizeTitle(title)|)
      && (!EndsWith(SanitizeTitle(title)[..n], ".pdf") ==> SanitizeTitle(title)[n..] == ".pdf"))
  {
    var r, c := SanitizeTitle(title), Stem(title);
    var k :| StemAt(title, k, c);
    assert r[..|c|] == c;
    assert StemAt(title, k, r[..|c|]);
  }

  /** Replacing changes nothing in a string without forbidden characters. */
  lemma ReplaceSafe(s: string)
    requires Safe(s)
    ensures ReplaceForbidden(s) == s
  {
  }

  /** When the trimmed title has no edge whitespace, `Trim` leaves it alone. */
  lemma TrimNoEdges(s: string)
    requires s != [] ==> !IsWhitespace(s[0]) && !IsWhitespace(s[|s| - 1])
    ensures Trim(s) == s
  {
  }

  /** A string already free of forbidden characters and edge whitespace,
      and short enough, is its own stem. */
  lemma StemOfClean(s: string)
    requires Safe(s) && |s| <= MaxStem
    requires s != [] ==> !IsWhitespace(s[0]) && !IsWhitespace(s[|s| - 1])
    ensures Stem(s) == s
  {
    ReplaceSafe(s);
    TrimNoEdges(s);
    assert Trim(ReplaceForbidden(s)) == s;
  }

  /** A clean name that already ends in ".pdf" is renamed to itself. */
  lemma SanitizeClean(s: string)
    requires Safe(s) && |s| <= MaxStem && EndsWith(s, ".pdf") && !IsWhitespace(s[0])
    ensures SanitizeTitle(s) == s
  {
    assert s[|s| - 1] == 'f' by {
      assert s[|s| - 4..] == ".pdf";
    }
    StemOfClean(s);
  }

  /** A name short enough to escape the cut is a fixed point: renaming it
      again gives it back. */
  lemma SanitizeTitleIdempotent(title: string)
    requires |SanitizeTitle(title)| <= MaxStem
    ensures SanitizeTitle(SanitizeTitle(title)) == SanitizeTitle(title)
  {
    SanitizeClean(SanitizeTitle(title));
  }

  /** A title of whitespace only trims to nothing and gives just ".pdf". */
  lemma BlankTitle(title: string)
    requires forall i :: 0 <= i < |title| ==> IsWhitespace(title[i])
    ensures SanitizeTitle(title) == ".pdf"
  {
    assert Safe(title);
    ReplaceSafe(title);
    TrimEmpty(title);
    assert Stem(title) == [];
  }

  /** Automatic renaming applies: `settings?.autoRename && document.title`. */
  predicate RenameApplies(settings: Option<Settings>, title: string)
  {
    settings.Some? && settings.value.autoRename && title != ""
  }

  /** The name `generateFilename` settles on: a ".pdf" name free of
      forbidden characters either way. */
  function NameFor(settings: Option<Settings>, title: string): (r: string)
    ensures EndsWith(r, ".pdf") && Safe(r)
  {
    DefaultNameClean();
    if RenameApplies(settings, title) then SanitizeTitle(title) else DefaultName
  }

  /** The default name is itself a clean ".pdf" name. */
  lemma DefaultNameClean()
    ensures EndsWith(DefaultName, ".pdf") && Safe(DefaultName)
  {
  }

  /** `generateFilename`, with the stored settings and `document.title` as inputs. */
  method GenerateFilename(settings: Option<Settings>, title: string) returns (fileName: string)
    ensures !RenameApplies(settings, title) ==> fileName == DefaultName
    ensures RenameApplies(settings, title) ==> fileName == SanitizeTitle(title)
    ensures EndsWith(fileName, ".pdf") && Safe(fileName)
  {
    fileName := DefaultName;
    if RenameApplies(settings, title) {
      fileName := Trim(ReplaceForbidden(title));
      if |fileName| > MaxStem {
        fileName := fileName[..MaxStem];
      }
      assert fileName == Stem(title);
      if !EndsWith(fileName, ".pdf") {
        fileName := fileName + ".pdf";
      }
    }
    assert fileName == NameFor(settings, title);
  }
}
