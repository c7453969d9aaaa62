/** The algorithm root: title, author and root block, and what `parse` does once the parser has
    built the root block. */
module Algorithms {
  import opened Wrappers
  import opened Statements

  const DEFAULT_TITLE: string := "Untitled"
  const DEFAULT_AUTHOR: string := "Anonymous"
  const SECTIONS_MESSAGE: string := "An algorithm must contain one and only one VARIABLES block and BEGINNING block."

  datatype ParseError = ParseException(message: string)

  /** The root block a new algorithm starts with: VARIABLES, BEGINNING and END, in that order. */
  const DEFAULT_ROOT: seq<Statement> := [Variables([]), Beginning([]), End([])]

  /** The check `parse` makes on the parsed root: exactly one VARIABLES block and exactly one
      BEGINNING block, anywhere in the tree; END is not counted. */
  predicate HasRootSections(root: seq<Statement>) {
    |ListByKind(root, VariablesKind)| == 1 && |ListByKind(root, BeginningKind)| == 1
  }

  /** The characters `.` does not match in a Java regular expression without flags. */
  predicate IsLineTerminator(c: char) {
    c == '\n' || c == '\r' || c == '\U{0085}' || c == '\U{2028}' || c == '\U{2029}'
  }

  predicate NoLineTerminator(s: string) {
    forall i :: 0 <= i < |s| ==> !IsLineTerminator(s[i])
  }

  /** " by " occurs in `s` at index `i`. */
  predicate SeparatorAt(s: string, i: int) {
    0 <= i && i + 4 <= |s| && s[i..i + 4] == " by "
  }

  /** The index of the last " by " in `s`, if any. */
  function LastSeparator(s: string): (r: Option<nat>)
    ensures r.Some? ==> SeparatorAt(s, r.value)
    ensures r.Some? ==> forall j :: r.value < j ==> !SeparatorAt(s, j)
    ensures r.None? ==> forall j :: !SeparatorAt(s, j)
  {
    if |s| < 4 then None
    else if s[|s| - 4..] == " by " then Some(|s| - 4)
    else
      var r := LastSeparator(s[..|s| - 1]);
      PrefixSeparators(s);
      r
  }

  /** Dropping the last character keeps every " by " that does not end at it. */
  lemma PrefixSeparators(s: string)
    requires |s| >= 1
    ensures forall j :: SeparatorAt(s, j) && j + 4 < |s| <==> SeparatorAt(s[..|s| - 1], j)
  {
    forall j | 0 <= j && j + 4 < |s|
      ensures SeparatorAt(s, j) <==> SeparatorAt(s[..|s| - 1], j)
    {
      assert s[j..j + 4] == s[..|s| - 1][j..j + 4];
    }
  }

  /** `Pattern.compile("(.*) by (.*)").matcher(credits).matches()` and its two groups: the greedy
      first group ends at the last " by ", and nothing may contain a line terminator. */
  function MatchCredits(credits: string): Option<(string, string)> {
    if !NoLineTerminator(credits) then None
    else match LastSeparator(credits)
      case None => None
      case Some(i) => Some((credits[..i], credits[i + 4..]))
  }

  /** Credits made of some title, " by " and some author, neither with a line terminator, always
      match (the converse is `CreditsMatchSplits`). */
  lemma {:induction false} SplittableCreditsMatch(title: string, author: string)
    requires NoLineTerminator(title) && NoLineTerminator(author)
    ensures MatchCredits(title + " by " + author).Some?
  {
    var s := title + " by " + author;
    assert SeparatorAt(s, |title|) by {
      assert s[|title|..|title| + 4] == " by ";
    }
    assert NoLineTerminator(s) by {
      forall i | 0 <= i < |s| ensures !IsLineTerminator(s[i]) {
        if i < |title| {
          assert s[i] == title[i];
        } else if i >= |title| + 4 {
          assert s[i] == author[i - |title| - 4];
        }
      }
    }
  }

  /** A match splits the credits as title + " by " + author, with no line terminator in either,
      and the title is the longest such: no " by " starts after it. */
  lemma {:induction false} CreditsMatchSplits(credits: string)
    requires MatchCredits(credits).Some?
    ensures var (title, author) := MatchCredits(credits).value;
      && credits == title + " by " + author
      && NoLineTerminator(title) && NoLineTerminator(author)
      && forall j :: |title| < j ==> !SeparatorAt(credits, j)
  {
    var i := LastSeparator(credits).value;
    var (title, author) := MatchCredits(credits).value;
    assert credits == credits[..i] + credits[i..i + 4] + credits[i + 4..];
    assert NoLineTerminator(title) by {
      forall k | 0 <= k < |title| ensures !IsLineTerminator(title[k]) {
        assert title[k] == credits[k];
      }
    }
    assert NoLineTerminator(author) by {
      forall k | 0 <= k < |author| ensures !IsLineTerminator(author[k]) {
        assert author[k] == credits[i + 4 + k];
      }
    }
  }

  /** "Greedy": of all ways to split the credits around a " by ", the match takes the one with the
      longest title. */
  lemma {:induction false} CreditsSplitIsGreedy(title: string, author: string)
    requires MatchCredits(title + " by " + author).Some?
    ensures |MatchCredits(title + " by " + author).value.0| >= |title|
  {
    var s := title + " by " + author;
    assert SeparatorAt(s, |title|) by {
      assert s[|title|..|title| + 4] == " by ";
    }
  }

  /** The root sections check accepts the default root. */
  lemma DefaultRootHasSections()
    ensures HasRootSections(DEFAULT_ROOT)
  {
    assert ListByKind(DEFAULT_ROOT, VariablesKind) == [Variables([])] by {
      assert DEFAULT_ROOT[1..] == [Beginning([]), End([])];
      assert DEFAULT_ROOT[1..][1..] == [End([])];
    }
    assert ListByKind(DEFAULT_ROOT, BeginningKind) == [Beginning([])] by {
      assert DEFAULT_ROOT[1..] == [Beginning([]), End([])];
      assert DEFAULT_ROOT[1..][1..] == [End([])];
    }
  }

  /** END is not counted: with or without END blocks, and with several, the check passes. */
  lemma EndIsNotChecked(ends: seq<Statement>)
    requires forall i :: 0 <= i < |ends| ==> ends[i] == End([])
    ensures HasRootSections([Variables([]), Beginning([])] + ends)
  {
    var root := [Variables([]), Beginning([])];
    assert ListByKind(root, VariablesKind) == [Variables([])] by {
      assert root[1..] == [Beginning([])];
    }
    assert ListByKind(root, BeginningKind) == [Beginning([])] by {
      assert root[1..] == [Beginning([])];
    }
    NoSectionsInEnds(ends);
    ListByKindAppend(root, ends, VariablesKind);
    ListByKindAppend(root, ends, BeginningKind);
  }

  lemma {:induction false} NoSectionsInEnds(ends: seq<Statement>)
    requires forall i :: 0 <= i < |ends| ==> ends[i] == End([])
    ensures ListByKind(ends, VariablesKind) == [] && ListByKind(ends, BeginningKind) == []
  {
    if ends != [] {
      NoSectionsInEnds(ends[1..]);
    }
  }

  /** Putting the unmatched header comment in front of the root does not change the sections. */
  lemma {:induction false} CommentKeepsSections(content: string, root: seq<Statement>)
    ensures HasRootSections([LineComment(content)] + root) <==> HasRootSections(root)
  {
    ListByKindAppend([LineComment(content)], root, VariablesKind);
    ListByKindAppend([LineComment(content)], root, BeginningKind);
  }

  class Algorithm {
    var title: string
    var author: string
    /** The children of the algorithm's root block. */
    var rootBlock: seq<Statement>

    /** `new Algorithm(title, author)`, where `None` is Java's null. */
    constructor (title: Option<string>, author: Option<string>)
      ensures this.title == (if title.None? then DEFAULT_TITLE else title.value)
      ensures this.author == (if author.None? then DEFAULT_AUTHOR else author.value)
      ensures rootBlock == DEFAULT_ROOT
    {
      this.title := DEFAULT_TITLE;
      this.author := DEFAULT_AUTHOR;
      rootBlock := DEFAULT_ROOT;
      new;
      SetTitle(title);
      SetAuthor(author);
    }

    /** `setTitle`: null stores "Untitled"; any other title, "" included, is stored as given. */
    method SetTitle(title: Option<string>)
      modifies this`title
      ensures this.title == (if title.None? then DEFAULT_TITLE else title.value)
    {
      if title.None? {
        this.title := DEFAULT_TITLE;
      } else {
        this.title := title.value;
      }
    }

    /** `setAuthor`: null stores "Anonymous"; any other author is stored as given. */
    method SetAuthor(author: Option<string>)
      modifies this`author
      ensures this.author == (if author.None? then DEFAULT_AUTHOR else author.value)
    {
      if author.None? {
        this.author := DEFAULT_AUTHOR;
      } else {
        this.author := author.value;
      }
    }

    /** `evaluate(evaluator, context)`: the root block's evaluation, supplied as `evaluateRoot`. */
    function Evaluate<E>(evaluateRoot: seq<Statement> -> Option<E>): (error: Option<E>)
      reads this
      ensures error == evaluateRoot(rootBlock)
    {
      evaluateRoot(rootBlock)
    }

    /** `toLanguage(language)`: the language's translation of the whole algorithm. */
    function ToLanguage(translateAlgorithm: (string, string, seq<Statement>) -> string): (text: string)
      reads this
      ensures text == translateAlgorithm(title, author, rootBlock)
    {
      translateAlgorithm(title, author, rootBlock)
    }

    /** `parse(content)` after lexing and parsing: `visitedRoot` is the root block the visitor
        built and `header` the content of the header comment, if there is one. */
    static method Parse(visitedRoot: seq<Statement>, header: Option<string>)
      returns (result: Result<Algorithm, ParseError>)
      ensures result.Failure? <==> !HasRootSections(visitedRoot)
      ensures result.Failure? ==> result.error == ParseException(SECTIONS_MESSAGE)
      ensures result.Success? ==> fresh(result.value)
      ensures result.Success? && (header.None? || MatchCredits(header.value).None?) ==>
        result.value.title == DEFAULT_TITLE && result.value.author == DEFAULT_AUTHOR
      ensures result.Success? && header.None? ==> result.value.rootBlock == visitedRoot
      ensures result.Success? && header.Some? && MatchCredits(header.value).None? ==>
        result.value.rootBlock == [LineComment(header.value)] + visitedRoot
      ensures result.Success? && header.Some? && MatchCredits(header.value).Some? ==>
        && result.value.title == MatchCredits(header.value).value.0
        && result.value.author == MatchCredits(header.value).value.1
        && result.value.rootBlock == visitedRoot
    {
      var algorithm := new Algorithm(None, None);
      algorithm.rootBlock := visitedRoot;
      var variablesBlockCount := |ListByKind(algorithm.rootBlock, VariablesKind)| == 1;
      var beginningBlockCount := |ListByKind(algorithm.rootBlock, BeginningKind)| == 1;
      if !variablesBlockCount || !beginningBlockCount {
        return Failure(ParseException(SECTIONS_MESSAGE));
      }
      if header.Some? {
        var groups := MatchCredits(header.value);
        if groups.Some? {
          algorithm.SetTitle(Some(groups.value.0));
          algorithm.SetAuthor(Some(groups.value.1));
        } else {
          algorithm.rootBlock := [LineComment(header.value)] + algorithm.rootBlock;
        }
      }
      return Success(algorithm);
    }
  }
}
