/**
 * The string handling of OptionList.filter (src/option-list.ts:103-135): the blank test with
 * String.prototype.trim, the split of the search into terms at single spaces, and the substring
 * test with String.prototype.indexOf. A string is a sequence of Unicode scalar values; JavaScript
 * strings are sequences of UTF-16 code units, which differ only for characters outside the Basic
 * Multilingual Plane and for lone surrogates.
 */
module Text {

  /** The characters String.prototype.trim removes: ECMAScript WhiteSpace and LineTerminator. */
  predicate IsTrimmed(c: char)
  {
    c == '\t' || c == '\n' || c == '\U{B}' || c == '\U{C}' || c == '\r' || c == ' ' ||
    c == '\U{A0}' || c == '\U{1680}' || ('\U{2000}' <= c <= '\U{200A}') ||
    c == '\U{2028}' || c == '\U{2029}' || c == '\U{202F}' || c == '\U{205F}' ||
    c == '\U{3000}' || c == '\U{FEFF}'
  }

  ghost predicate AllTrimmed(s: string)
  {
    forall i :: 0 <= i < |s| ==> IsTrimmed(s[i])
  }

  /** `s` without its leading whitespace. */
  function TrimStart(s: string): (r: string)
    ensures r == [] || !IsTrimmed(r[0])
    ensures |r| <= |s| && r == s[|s| - |r|..]
  {
    if s != [] && IsTrimmed(s[0]) then TrimStart(s[1..]) else s
  }

  /** `s` without its trailing whitespace. */
  function TrimEnd(s: string): (r: string)
    ensures r == [] || !IsTrimmed(r[|r| - 1])
    ensures |r| <= |s| && r == s[..|r|]
  {
    if s != [] && IsTrimmed(s[|s| - 1]) then TrimEnd(s[..|s| - 1]) else s
  }

  /** String.prototype.trim. */
  function Trim(s: string): string
  {
    TrimEnd(TrimStart(s))
  }

  /** The test `search.trim() === ''` that selects the reset branch of filter. */
  predicate Blank(s: string)
  {
    Trim(s) == ""
  }

  /** A non-empty string is all whitespace exactly when its head and its tail are. */
  lemma AllTrimmedCons(s: string)
    requires s != []
    ensures AllTrimmed(s) <==> IsTrimmed(s[0]) && AllTrimmed(s[1..])
  {
    if IsTrimmed(s[0]) && AllTrimmed(s[1..]) {
      forall i | 0 < i < |s| ensures IsTrimmed(s[i]) {
        assert s[i] == s[1..][i - 1];
      }
    }
  }

  /** Trimming the start leaves nothing exactly when the string is all whitespace. */
  lemma {:induction false} TrimStartEmpty(s: string)
    ensures TrimStart(s) == [] <==> AllTrimmed(s)
  {
    if s != [] {
      AllTrimmedCons(s);
      if IsTrimmed(s[0]) {
        TrimStartEmpty(s[1..]);
      }
    }
  }

  /** A search is blank exactly when it consists of whitespace only (the empty string included). */
  lemma BlankIffWhitespace(s: string)
    ensures Blank(s) <==> AllTrimmed(s)
  {
    TrimStartEmpty(s);
    var t := TrimStart(s);
    if t != [] {
      assert TrimEnd(t) != [] by {
        var r := TrimEnd(t);
        if r == [] {
          assert t[0] == t[|t| - 1] || |t| > 1;
          TrimEndKeepsNonSpace(t, 0);
        }
      }
    }
  }

  /** TrimEnd never removes a character that is followed by, or is, a non-whitespace one. */
  lemma {:induction false} TrimEndKeepsNonSpace(s: string, i: nat)
    requires i < |s| && !IsTrimmed(s[i])
    ensures i < |TrimEnd(s)|
  {
    if IsTrimmed(s[|s| - 1]) {
      assert i < |s| - 1;
      TrimEndKeepsNonSpace(s[..|s| - 1], i);
    }
  }

  /**
   * String.prototype.split with a one-character separator: the maximal runs between occurrences
   * of `sep`, empty runs included; the empty string gives one empty piece.
   */
  function Split(s: string, sep: char): (pieces: seq<string>)
    ensures |pieces| >= 1
  {
    if s == [] then [""]
    else
      var rest := Split(s[1..], sep);
      if s[0] == sep then [""] + rest else [[s[0]] + rest[0]] + rest[1..]
  }

  /** Array.prototype.join with a one-character separator, the inverse of Split. */
  function Join(pieces: seq<string>, sep: char): string
    requires |pieces| >= 1
  {
    if |pieces| == 1 then pieces[0] else pieces[0] + [sep] + Join(pieces[1..], sep)
  }

  /** Splitting loses nothing: joining the pieces again gives back the search. */
  lemma {:induction false} JoinSplit(s: string, sep: char)
    ensures Join(Split(s, sep), sep) == s
  {
    if s != [] {
      var rest := Split(s[1..], sep);
      JoinSplit(s[1..], sep);
      if s[0] == sep {
        assert Split(s, sep)[1..] == rest;
      } else {
        var ps := Split(s, sep);
        assert ps[0] == [s[0]] + rest[0];
        assert ps[1..] == rest[1..];
        if |rest| == 1 {
          assert Join(rest, sep) == rest[0];
        } else {
          assert Join(rest, sep) == rest[0] + [sep] + Join(rest[1..], sep);
        }
      }
    }
  }

  /** No piece of a split contains the separator. */
  lemma {:induction false} SplitPiecesFree(s: string, sep: char)
    ensures forall i :: 0 <= i < |Split(s, sep)| ==> sep !in Split(s, sep)[i]
  {
    if s != [] {
      SplitPiecesFree(s[1..], sep);
    }
  }

  /** `pieces.filter(term => term.length > 0)`. */
  function NonEmpty(pieces: seq<string>): (r: seq<string>)
    ensures |r| <= |pieces|
  {
    if pieces == [] then []
    else (if |pieces[0]| > 0 then [pieces[0]] else []) + NonEmpty(pieces[1..])
  }

  /** The filter keeps exactly the non-empty pieces. */
  lemma {:induction false} NonEmptyKeeps(pieces: seq<string>)
    ensures forall t :: t in NonEmpty(pieces) <==> t in pieces && |t| > 0
  {
    if pieces != [] {
      NonEmptyKeeps(pieces[1..]);
      assert pieces == [pieces[0]] + pieces[1..];
    }
  }

  /** The search terms of filter: the non-empty pieces of the search split at single spaces. */
  function Terms(search: string): seq<string>
  {
    NonEmpty(Split(search, ' '))
  }

  /** Every search term is non-empty and free of spaces. */
  lemma TermsPieces(search: string)
    ensures forall i :: 0 <= i < |Terms(search)| ==> |Terms(search)[i]| > 0 && ' ' !in Terms(search)[i]
  {
    SplitPiecesFree(search, ' ');
    NonEmptyKeeps(Split(search, ' '));
    forall i | 0 <= i < |Terms(search)|
      ensures |Terms(search)[i]| > 0 && ' ' !in Terms(search)[i]
    {
      assert Terms(search)[i] in Split(search, ' ');
    }
  }

  /** The pieces of a split are all empty exactly when the string is nothing but separators. */
  lemma {:induction false} SplitAllEmpty(s: string, sep: char)
    ensures (forall i :: 0 <= i < |Split(s, sep)| ==> Split(s, sep)[i] == "") <==>
            (forall i :: 0 <= i < |s| ==> s[i] == sep)
  {
    if s != [] {
      var rest := Split(s[1..], sep);
      var ps := Split(s, sep);
      SplitAllEmpty(s[1..], sep);
      if s[0] == sep {
        assert ps == [""] + rest;
        if forall i :: 0 <= i < |s| ==> s[i] == sep {
          assert forall i :: 0 <= i < |s[1..]| ==> s[1..][i] == s[i + 1];
          assert forall i :: 0 < i < |ps| ==> ps[i] == rest[i - 1];
        } else {
          var k :| 0 <= k < |s| && s[k] != sep;
          assert s[1..][k - 1] != sep;
          var j :| 0 <= j < |rest| && rest[j] != "";
          assert ps[j + 1] == rest[j];
        }
      } else {
        assert ps[0] != "";
      }
    }
  }

  /** With no terms, every piece of the split is empty. */
  lemma NoTermsEmptyPieces(search: string)
    requires Terms(search) == []
    ensures forall i :: 0 <= i < |Split(search, ' ')| ==> Split(search, ' ')[i] == ""
  {
    var ps := Split(search, ' ');
    NonEmptyKeeps(ps);
    forall i | 0 <= i < |ps| ensures ps[i] == "" {
      assert ps[i] in ps;
    }
  }

  /** A term is a non-empty piece of the split. */
  lemma TermsNonEmptyPiece(search: string)
    requires Terms(search) != []
    ensures exists i :: 0 <= i < |Split(search, ' ')| && Split(search, ' ')[i] != ""
  {
    var ps := Split(search, ' ');
    NonEmptyKeeps(ps);
    assert Terms(search)[0] in ps;
  }

  /** There are no terms exactly when the search holds nothing but spaces. */
  lemma NoTermsIffSpaces(search: string)
    ensures Terms(search) == [] <==> forall i :: 0 <= i < |search| ==> search[i] == ' '
  {
    SplitAllEmpty(search, ' ');
    if Terms(search) == [] {
      NoTermsEmptyPieces(search);
    } else {
      TermsNonEmptyPiece(search);
    }
  }

  /** A search that is not blank has at least one term, so the AND over terms is never vacuous. */
  lemma NonBlankHasTerms(search: string)
    requires !Blank(search)
    ensures Terms(search) != []
  {
    BlankIffWhitespace(search);
    NoTermsIffSpaces(search);
  }

  /** A string without the separator splits into itself alone. */
  lemma {:induction false} SplitNoSep(s: string, sep: char)
    requires sep !in s
    ensures Split(s, sep) == [s]
  {
    if s != [] {
      SplitNoSep(s[1..], sep);
      assert [s[0]] + s[1..] == s;
    }
  }

  /** A non-empty search without spaces is its own single term. */
  lemma SpaceFreeTerm(search: string)
    requires search != [] && ' ' !in search
    ensures Terms(search) == [search]
  {
    SplitNoSep(search, ' ');
    assert NonEmpty([search]) == [search] by {
      assert [search][1..] == [];
    }
  }

  /** Only the space separates terms: a tab stays inside its term. */
  lemma TabStaysInTerm()
    ensures Terms("a\tb") == ["a\tb"]
  {
    SpaceFreeTerm("a\tb");
  }

  /** Any whitespace counts as blank: a search of one tab resets the filter. */
  lemma TabIsBlank()
    ensures Blank("\t")
  {
    BlankIffWhitespace("\t");
  }

  /** `needle` occurs in `hay` at position `k`. */
  ghost predicate OccursAt(needle: string, hay: string, k: int)
  {
    0 <= k && k + |needle| <= |hay| && hay[k..k + |needle|] == needle
  }

  ghost predicate Occurs(needle: string, hay: string)
  {
    exists k :: OccursAt(needle, hay, k)
  }

  /** String.prototype.indexOf from position `from`: the first occurrence at or after it, else -1. */
  function IndexOfFrom(hay: string, needle: string, from: nat): (r: int)
    requires from <= |hay|
    ensures r == -1 || (from <= r && OccursAt(needle, hay, r))
    ensures forall k :: from <= k && (r == -1 || k < r) ==> !OccursAt(needle, hay, k)
    decreases |hay| - from
  {
    if from + |needle| > |hay| then -1
    else if hay[from..from + |needle|] == needle then from
    else if from == |hay| then -1
    else IndexOfFrom(hay, needle, from + 1)
  }

  /** String.prototype.indexOf. */
  function IndexOf(hay: string, needle: string): int
  {
    IndexOfFrom(hay, needle, 0)
  }

  /** `hay.indexOf(needle) > -1` holds exactly when `needle` occurs in `hay`. */
  lemma IndexOfFinds(hay: string, needle: string)
    ensures IndexOf(hay, needle) > -1 <==> Occurs(needle, hay)
  {
    var r := IndexOf(hay, needle);
    if r > -1 {
      assert OccursAt(needle, hay, r);
    }
  }

  /**
   * `terms.every(term => label.indexOf(norm(term)) > -1)` for a label already normalised: every
   * normalised term occurs in it (filter's AND over terms).
   */
  function MatchesAll(l: string, terms: seq<string>, norm: string -> string): bool
  {
    if terms == [] then true
    else IndexOf(l, norm(terms[0])) > -1 && MatchesAll(l, terms[1..], norm)
  }

  /** The label matches exactly when every normalised term occurs in it. */
  lemma {:induction false} MatchesAllOccurs(l: string, terms: seq<string>, norm: string -> string)
    ensures MatchesAll(l, terms, norm) <==> forall i :: 0 <= i < |terms| ==> Occurs(norm(terms[i]), l)
  {
    if terms != [] {
      IndexOfFinds(l, norm(terms[0]));
      MatchesAllOccurs(l, terms[1..], norm);
      assert forall i :: 1 <= i < |terms| ==> terms[i] == terms[1..][i - 1];
    }
  }
}
