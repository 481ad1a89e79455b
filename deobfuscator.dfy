/**
 * `Deobfuscator`: maps obfuscated class names back to their clear-text names,
 * using the class-mapping lines of a ProGuard mapping file.  A class-mapping line
 * has the form `clear.Name -> a.b:`; comment lines start with '#' and member
 * lines are indented, so neither starts with a letter.
 */
module Deobfuscation {
  import opened Wrappers

  datatype Deobfuscator = Deobfuscator(mapping: map<string, string>)

  /** `EMPTY`: the deobfuscator with no mapping. */
  const EMPTY: Deobfuscator := Deobfuscator(map[])

  /** `deobfuscator(name)`: `mapping.getOrDefault(name, name)`. */
  function Deobfuscate(d: Deobfuscator, name: string): (r: string)
    ensures name in d.mapping ==> r == d.mapping[name]
    ensures name !in d.mapping ==> r == name
  {
    if name in d.mapping then d.mapping[name] else name
  }

  /** `EMPTY` leaves every name as it is. */
  lemma EmptyIsIdentity(name: string)
    ensures Deobfuscate(EMPTY, name) == name
  {
  }

  /* ---------------------------------------------------------------------
   * The CLASS_LINE pattern  ^([a-zA-Z][^\s]*) -> ([^:]+):$  under `matches()`
   * --------------------------------------------------------------------- */

  /** The regex class `\s`: space, tab, newline, vertical tab, form feed, return. */
  predicate IsRegexSpace(c: char) {
    c == ' ' || '\t' <= c <= '\r'
  }

  predicate IsAsciiLetter(c: char) {
    'a' <= c <= 'z' || 'A' <= c <= 'Z'
  }

  /** The index of the first `\s` character at or after `from`, or |s|. */
  function FirstSpace(s: string, from: nat): (r: nat)
    requires from <= |s|
    ensures from <= r <= |s|
    ensures r < |s| ==> IsRegexSpace(s[r])
    ensures forall i | from <= i < r :: !IsRegexSpace(s[i])
    decreases |s| - from
  {
    if from == |s| || IsRegexSpace(s[from]) then from else FirstSpace(s, from + 1)
  }

  /** What the pattern accepts, stated as a decomposition: the line is
      A + " -> " + B + ":" where A starts with an ASCII letter and has no
      whitespace, and B is non-empty without ':'. */
  predicate ClassLine(line: string, clear: string, obfuscated: string) {
    && |clear| >= 1 && IsAsciiLetter(clear[0])
    && (forall i | 0 <= i < |clear| :: !IsRegexSpace(clear[i]))
    && |obfuscated| >= 1 && ':' !in obfuscated
    && line == clear + " -> " + obfuscated + ":"
  }

  /** `CLASS_LINE.matcher(line).matches()` with its two groups: group 1 must end
      at the first whitespace, since it cannot contain any and " -> " starts with
      a space. */
  function MatchClassLine(line: string): Option<(string, string)> {
    if |line| == 0 || !IsAsciiLetter(line[0]) then None
    else
      var w := FirstSpace(line, 0);
      if w + 5 < |line| && line[w..w + 4] == " -> " && line[|line| - 1] == ':'
         && ':' !in line[w + 4..|line| - 1]
      then Some((line[..w], line[w + 4..|line| - 1]))
      else None
  }

  /** The matcher finds exactly the decompositions the pattern describes; in
      particular a line decomposes in at most one way. */
  lemma MatchClassLineIff(line: string, clear: string, obfuscated: string)
    ensures MatchClassLine(line) == Some((clear, obfuscated)) <==> ClassLine(line, clear, obfuscated)
  {
    if ClassLine(line, clear, obfuscated) {
      var w := |clear|;
      assert line[..w] == clear;
      assert line[w] == ' ';
      assert FirstSpace(line, 0) == w by {
        forall i | 0 <= i < w ensures !IsRegexSpace(line[i]) {
          assert line[i] == clear[i];
        }
        FirstSpaceIs(line, w);
      }
      assert line[w..w + 4] == " -> ";
      assert line[w + 4..|line| - 1] == obfuscated;
    }
    if MatchClassLine(line) == Some((clear, obfuscated)) {
      var w := FirstSpace(line, 0);
      assert forall i | 0 <= i < |clear| :: clear[i] == line[i];
      assert line == line[..w] + line[w..w + 4] + line[w + 4..|line| - 1] + [line[|line| - 1]];
    }
  }

  /** FirstSpace stops at the first whitespace. */
  lemma FirstSpaceIs(s: string, w: nat)
    requires w < |s| && IsRegexSpace(s[w])
    requires forall i | 0 <= i < w :: !IsRegexSpace(s[i])
    ensures FirstSpace(s, 0) == w
  {
  }

  /** Comment lines and indented member lines are never class lines. */
  lemma CommentsAndMembersIgnored(line: string)
    requires |line| >= 1 && (line[0] == '#' || line[0] == ' ')
    ensures MatchClassLine(line) == None
  {
  }

  /* ---------------------------------------------------------------------
   * create
   * --------------------------------------------------------------------- */

  /** The map after putting the class lines of `lines` in order: each class line
      stores obfuscated -> clear text. */
  function MappingOf(lines: seq<string>): map<string, string>
    decreases |lines|
  {
    if lines == [] then map[]
    else
      var m := MappingOf(lines[..|lines| - 1]);
      match MatchClassLine(lines[|lines| - 1])
      case Some((clear, obfuscated)) => m[obfuscated := clear]
      case None => m
    }

  /** `create(mappingFile)`: None stands for a null or missing mapping file, which
      gives `EMPTY`; otherwise every line is matched and class lines are put into
      the mapping in order. */
  method Create(mappingFile: Option<seq<string>>) returns (d: Deobfuscator)
    ensures mappingFile.None? ==> d == EMPTY
    ensures mappingFile.Some? ==> d == Deobfuscator(MappingOf(mappingFile.value))
  {
    if mappingFile.None? {
      return EMPTY;
    }
    var lines := mappingFile.value;
    var mapping: map<string, string> := map[];
    for i := 0 to |lines|
      invariant mapping == MappingOf(lines[..i])
    {
      assert lines[..i + 1][..i] == lines[..i];
      var matcher := MatchClassLine(lines[i]);
      if matcher.Some? {
        var (clearText, obfuscated) := matcher.value;
        mapping := mapping[obfuscated := clearText];
      }
    }
    assert lines[..|lines|] == lines;
    return Deobfuscator(mapping);
  }

  /** A name is a key exactly when some line is a class line for it. */
  lemma {:induction false} MappingKeys(lines: seq<string>, obfuscated: string)
    ensures obfuscated in MappingOf(lines) <==>
      exists i | 0 <= i < |lines| :: MatchClassLine(lines[i]).Some? && MatchClassLine(lines[i]).value.1 == obfuscated
    decreases |lines|
  {
    if lines != [] {
      var n := |lines| - 1;
      MappingKeys(lines[..n], obfuscated);
      if exists i | 0 <= i < n :: MatchClassLine(lines[..n][i]).Some? && MatchClassLine(lines[..n][i]).value.1 == obfuscated {
        var i :| 0 <= i < n && MatchClassLine(lines[..n][i]).Some? && MatchClassLine(lines[..n][i]).value.1 == obfuscated;
        assert lines[i] == lines[..n][i];
      }
      if exists i | 0 <= i < |lines| :: MatchClassLine(lines[i]).Some? && MatchClassLine(lines[i]).value.1 == obfuscated {
        var i :| 0 <= i < |lines| && MatchClassLine(lines[i]).Some? && MatchClassLine(lines[i]).value.1 == obfuscated;
        if i < n {
          assert lines[i] == lines[..n][i];
        }
      }
    }
  }

  /** When several class lines share an obfuscated name, the last one wins. */
  lemma {:induction false} LastLineWins(lines: seq<string>, i: nat, clear: string, obfuscated: string)
    requires i < |lines| && MatchClassLine(lines[i]) == Some((clear, obfuscated))
    requires forall j | i < j < |lines| :: MatchClassLine(lines[j]).None? || MatchClassLine(lines[j]).value.1 != obfuscated
    ensures obfuscated in MappingOf(lines) && MappingOf(lines)[obfuscated] == clear
    decreases |lines|
  {
    var n := |lines| - 1;
    if i < n {
      forall j | i < j < n
        ensures MatchClassLine(lines[..n][j]).None? || MatchClassLine(lines[..n][j]).value.1 != obfuscated
      {
        assert lines[..n][j] == lines[j];
      }
      assert lines[..n][i] == lines[i];
      LastLineWins(lines[..n], i, clear, obfuscated);
    }
  }

  /** A looked-up name comes from a class line of the file, with the two groups
      the other way round. */
  lemma {:induction false} LookupFromClassLine(lines: seq<string>, obfuscated: string)
    requires obfuscated in MappingOf(lines)
    ensures exists i | 0 <= i < |lines| :: ClassLine(lines[i], MappingOf(lines)[obfuscated], obfuscated)
    decreases |lines|
  {
    var n := |lines| - 1;
    var m := MappingOf(lines[..n]);
    match MatchClassLine(lines[n])
    case Some((clear, ob)) =>
      if ob == obfuscated {
        MatchClassLineIff(lines[n], clear, ob);
      } else {
        LookupFromClassLine(lines[..n], obfuscated);
        var i :| 0 <= i < n && ClassLine(lines[..n][i], m[obfuscated], obfuscated);
        assert lines[i] == lines[..n][i];
      }
    case None =>
      LookupFromClassLine(lines[..n], obfuscated);
      var i :| 0 <= i < n && ClassLine(lines[..n][i], m[obfuscated], obfuscated);
      assert lines[i] == lines[..n][i];
  }
}
