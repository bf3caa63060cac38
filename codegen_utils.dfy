/** Identifier normalisation of the code generator (CodegenUtils.java): escaping an
    arbitrary name taken from an AsyncAPI document into a Ballerina identifier, and
    deriving type, field and function names from such a name.

    The source's escape pattern is a one-character class; here it is the set
    `separators` of the characters it matches. Its reserved-word list is the set
    `keywords`. Case mapping is that of Locale.ENGLISH, restricted to ASCII. */
module CodegenUtils {
  import opened Results

  // ------------------------------------------------------------------ characters

  predicate IsAsciiLetter(c: char) { 'a' <= c <= 'z' || 'A' <= c <= 'Z' }

  predicate IsDigit(c: char) { '0' <= c <= '9' }

  /** The ASCII characters for which Character.isWhitespace holds. */
  const Whitespace: set<char> :=
    {'\t', '\n', 11 as char, 12 as char, '\r', 28 as char, 29 as char, 30 as char, 31 as char, ' '}

  predicate IsWhitespace(c: char) { c in Whitespace }

  /** String.isBlank: the string is empty or holds white space only. */
  predicate IsBlank(s: string) { forall i :: 0 <= i < |s| ==> IsWhitespace(s[i]) }

  function ToUpper(c: char): char { if 'a' <= c <= 'z' then (c as int - 32) as char else c }

  function ToLower(c: char): char { if 'A' <= c <= 'Z' then (c as int + 32) as char else c }

  /** String.toLowerCase on ASCII text. */
  function LowerAll(s: string): (r: string)
    ensures |r| == |s|
  {
    seq(|s|, i requires 0 <= i < |s| => ToLower(s[i]))
  }

  predicate SeparatorFree(s: string, separators: set<char>)
  {
    forall i :: 0 <= i < |s| ==> s[i] !in separators
  }

  // ------------------------------------------------------- identifier grammar

  predicate IsIdentifierStart(c: char) { c == '_' || IsAsciiLetter(c) }

  predicate IsIdentifierPart(c: char) { IsIdentifierStart(c) || IsDigit(c) }

  /** The whole of s matches \b[_a-zA-Z][_a-zA-Z0-9]*\b. */
  predicate IsBareIdentifier(s: string)
  {
    |s| > 0 && IsIdentifierStart(s[0]) && forall i :: 1 <= i < |s| ==> IsIdentifierPart(s[i])
  }

  /** The whole of s matches \b[0-9]*\b; the empty string has no word boundary, so it does not. */
  predicate IsAllDigits(s: string)
  {
    |s| > 0 && forall i :: 0 <= i < |s| ==> IsDigit(s[i])
  }

  /** A trailing '?' marks an optional record field. */
  predicate EndsWithMarker(s: string) { |s| > 0 && s[|s| - 1] == '?' }

  // ---------------------------------------------------------------- escaping

  /** The separator characters of s, in order. */
  function SeparatorsIn(s: string, separators: set<char>): (r: string)
    ensures |r| <= |s|
    decreases |s|
  {
    if s == [] then []
    else (if s[0] in separators then [s[0]] else []) + SeparatorsIn(s[1..], separators)
  }

  /** replaceAll(ESCAPE_PATTERN, "\\\\$1"): a backslash before every separator character. */
  function EscapeSpecials(s: string, separators: set<char>): (r: string)
    ensures |r| >= |s|
    decreases |s|
  {
    if s == [] then []
    else (if s[0] in separators then ['\\', s[0]] else [s[0]]) + EscapeSpecials(s[1..], separators)
  }

  /** Escaping adds exactly one character, the backslash, per separator. */
  lemma {:induction false} EscapeSpecialsLength(s: string, separators: set<char>)
    ensures |EscapeSpecials(s, separators)| == |s| + |SeparatorsIn(s, separators)|
    decreases |s|
  {
    if s != [] {
      EscapeSpecialsLength(s[1..], separators);
    }
  }

  /** Escaping keeps the last character last, puts a backslash before it when it is a
      separator, and starts with a backslash exactly when the text starts with a separator. */
  lemma {:induction false} EscapeSpecialsEnds(s: string, separators: set<char>)
    requires |s| > 0
    ensures var r := EscapeSpecials(s, separators);
      && r[0] == (if s[0] in separators then '\\' else s[0])
      && r[|r| - 1] == s[|s| - 1]
      && (s[|s| - 1] in separators ==> |r| >= 2 && r[|r| - 2] == '\\')
    decreases |s|
  {
    var head := if s[0] in separators then ['\\', s[0]] else [s[0]];
    var tail := EscapeSpecials(s[1..], separators);
    assert EscapeSpecials(s, separators) == head + tail;
    if |s| > 1 {
      EscapeSpecialsEnds(s[1..], separators);
    }
  }

  /** Escaping works character by character, so it distributes over concatenation. */
  lemma {:induction false} EscapeSpecialsAppend(a: string, b: string, separators: set<char>)
    ensures EscapeSpecials(a + b, separators) == EscapeSpecials(a, separators) + EscapeSpecials(b, separators)
    decreases |a|
  {
    if a == [] {
      assert a + b == b;
    } else {
      assert (a + b)[0] == a[0];
      assert (a + b)[1..] == a[1..] + b;
      EscapeSpecialsAppend(a[1..], b, separators);
    }
  }

  /** How a reader of Ballerina source resolves escapes: a backslash stands for the
      character after it. */
  function Unescape(s: string): (r: string)
    ensures |r| <= |s|
    decreases |s|
  {
    if |s| >= 2 && s[0] == '\\' then [s[1]] + Unescape(s[2..])
    else if s == [] then []
    else [s[0]] + Unescape(s[1..])
  }

  lemma UnescapeEscapedHead(c: char, rest: string)
    ensures Unescape(['\\', c] + rest) == [c] + Unescape(rest)
  {
    var x := ['\\', c] + rest;
    assert |x| >= 2 && x[0] == '\\' && x[1] == c && x[2..] == rest;
  }

  lemma UnescapePlainHead(c: char, rest: string)
    requires c != '\\'
    ensures Unescape([c] + rest) == [c] + Unescape(rest)
  {
    var x := [c] + rest;
    assert x[0] == c && x[1..] == rest;
  }

  /** Escaping loses nothing when the backslash is itself a separator: resolving the
      escapes of an escaped text gives the text back, whatever follows it. */
  lemma {:induction false} UnescapeAfterEscape(s: string, t: string, separators: set<char>)
    requires '\\' in separators
    ensures Unescape(EscapeSpecials(s, separators) + t) == s + Unescape(t)
    decreases |s|
  {
    if s == [] {
      assert EscapeSpecials(s, separators) + t == t;
    } else {
      var rest := EscapeSpecials(s[1..], separators) + t;
      var head := if s[0] in separators then ['\\', s[0]] else [s[0]];
      calc {
        Unescape(EscapeSpecials(s, separators) + t);
        { EscapeSpecialsHead(s, separators, t); }
        Unescape(head + rest);
        { if s[0] in separators { UnescapeEscapedHead(s[0], rest); } else { UnescapePlainHead(s[0], rest); } }
        [s[0]] + Unescape(rest);
        { UnescapeAfterEscape(s[1..], t, separators); }
        [s[0]] + (s[1..] + Unescape(t));
        { assert [s[0]] + s[1..] == s; }
        s + Unescape(t);
      }
    }
  }

  /** One step of escaping, with whatever text follows the escaped one. */
  lemma EscapeSpecialsHead(s: string, separators: set<char>, t: string)
    requires s != []
    ensures EscapeSpecials(s, separators) + t
            == (if s[0] in separators then ['\\', s[0]] else [s[0]]) + (EscapeSpecials(s[1..], separators) + t)
  {
    var head := if s[0] in separators then ['\\', s[0]] else [s[0]];
    var tail := EscapeSpecials(s[1..], separators);
    calc {
      EscapeSpecials(s, separators) + t;
      (head + tail) + t;
      head + (tail + t);
    }
  }

  /** Text without a backslash has no escapes to resolve. */
  lemma {:induction false} UnescapePlain(s: string)
    requires forall i :: 0 <= i < |s| ==> s[i] != '\\'
    ensures Unescape(s) == s
    decreases |s|
  {
    if s != [] {
      UnescapePlain(s[1..]);
      assert s == [s[0]] + s[1..];
    }
  }

  /** Every separator character of s is escaped by the backslash just before it. */
  predicate WellEscaped(s: string, separators: set<char>)
    decreases |s|
  {
    || s == []
    || (|s| >= 2 && s[0] == '\\' && s[1] in separators && WellEscaped(s[2..], separators))
    || (s[0] !in separators && WellEscaped(s[1..], separators))
  }

  lemma {:induction false} EscapedIsWellEscaped(s: string, separators: set<char>)
    ensures WellEscaped(EscapeSpecials(s, separators), separators)
    decreases |s|
  {
    if s != [] {
      EscapedIsWellEscaped(s[1..], separators);
      var e := EscapeSpecials(s, separators);
      if s[0] in separators {
        assert e == ['\\', s[0]] + EscapeSpecials(s[1..], separators);
        assert e[2..] == EscapeSpecials(s[1..], separators);
      } else {
        assert e == [s[0]] + EscapeSpecials(s[1..], separators);
        assert e[1..] == EscapeSpecials(s[1..], separators);
      }
    }
  }

  predicate NeedsEscape(s: string, keywords: set<string>)
  {
    !IsBareIdentifier(s) || s in keywords
  }

  /** A leading quote marks a quoted identifier; a reader drops it. */
  function Unquote(s: string): (r: string)
  {
    if |s| > 0 && s[0] == '\'' then s[1..] else s
  }

  /** The backslash, the quote and the optional-field marker are all separators, as in
      the generator's own escape pattern. */
  predicate EscapesMarkers(separators: set<char>)
  {
    '\\' in separators && '\'' in separators && '?' in separators
  }

  /** The escaped text with the backslash just before its trailing '?' removed, if there is one. */
  function WithoutMarkerEscape(e: string): (t: string)
    requires |e| >= 2 && EndsWithMarker(e)
    ensures EndsWithMarker(t) && |t| >= |e| - 1
  {
    if e[|e| - 2] == '\\' then e[..|e| - 2] + "?" else e
  }

  /** A quoted identifier: a quote, then escaped text, possibly with an unescaped trailing '?'. */
  predicate IsQuoted(s: string, separators: set<char>)
  {
    && |s| > 0 && s[0] == '\''
    && (|| WellEscaped(s[1..], separators)
        || (EndsWithMarker(s[1..]) && WellEscaped(s[1..|s| - 1], separators)))
  }

  /** An unquoted escaped name that is not reserved, followed by the optional-field marker. */
  predicate IsMarkedName(s: string, keywords: set<string>, separators: set<char>)
  {
    EndsWithMarker(s) && s[..|s| - 1] !in keywords && WellEscaped(s[..|s| - 1], separators)
  }

  /** The identifiers the generator may emit for a name. */
  predicate IsValidIdentifier(s: string, keywords: set<string>, separators: set<char>)
  {
    || (IsBareIdentifier(s) && s !in keywords)
    || s == "_error"
    || IsQuoted(s, separators)
    || IsMarkedName(s, keywords, separators)
  }

  /** What escapeIdentifier relies on when the name does not end in '?': the escaped
      text does not either, its quoted form is a quoted identifier, and it reads back as the name. */
  lemma QuotedBranch(identifier: string, separators: set<char>)
    requires !EndsWithMarker(identifier)
    ensures !EndsWithMarker(EscapeSpecials(identifier, separators))
    ensures IsQuoted("'" + EscapeSpecials(identifier, separators), separators)
    ensures '\\' in separators ==> Unescape(Unquote("'" + EscapeSpecials(identifier, separators))) == identifier
  {
    var e := EscapeSpecials(identifier, separators);
    if identifier != [] {
      EscapeSpecialsEnds(identifier, separators);
    }
    EscapedIsWellEscaped(identifier, separators);
    assert ("'" + e)[1..] == e;
    if '\\' in separators {
      UnescapeAfterEscape(identifier, "", separators);
      assert e + "" == e;
      assert identifier + "" == identifier;
    }
  }

  /** Escaping a name that ends in '?' escapes what precedes the marker and then the
      marker itself. */
  lemma MarkerEscape(p: string, separators: set<char>)
    ensures EscapeSpecials(p + "?", separators)
            == EscapeSpecials(p, separators) + (if '?' in separators then "\\?" else "?")
  {
    EscapeSpecialsAppend(p, "?", separators);
    assert EscapeSpecials("?", separators) == (if '?' in separators then "\\?" else "?") by {
      assert "?"[1..] == [];
    }
  }

  /** Dropping the backslash before an escaped marker leaves the marker unescaped. */
  lemma MarkerUnescaped(name: string)
    ensures WithoutMarkerEscape(name + "\\?") == name + "?"
  {
    var e := name + "\\?";
    assert e[|e| - 2] == '\\';
    assert e[..|e| - 2] == name;
  }

  /** An escaped name followed by the marker is a quoted identifier once quoted, and a
      marked name when the name is not reserved. */
  lemma MarkedNameValid(name: string, keywords: set<string>, separators: set<char>)
    requires WellEscaped(name, separators)
    ensures IsQuoted("'" + name + "?", separators)
    ensures name !in keywords ==> IsMarkedName(name + "?", keywords, separators)
  {
    var m := name + "?";
    assert m[..|m| - 1] == name;
    var q := "'" + name + "?";
    assert q[1..] == m;
    assert q[1..|q| - 1] == name;
  }

  /** The escaped name, with its marker, reads back as the name, quoted or not. */
  lemma MarkedNameReadBack(p: string, separators: set<char>)
    requires EscapesMarkers(separators)
    ensures Unescape(Unquote(EscapeSpecials(p, separators) + "?")) == p + "?"
    ensures Unescape(Unquote("'" + EscapeSpecials(p, separators) + "?")) == p + "?"
  {
    var name := EscapeSpecials(p, separators);
    UnescapeAfterEscape(p, "?", separators);
    assert Unescape("?") == "?" by {
      assert "?"[1..] == [];
    }
    if p != [] {
      EscapeSpecialsEnds(p, separators);
      assert (name + "?")[0] == name[0];
    }
    assert ("'" + name + "?")[1..] == name + "?";
  }

  /** escapeIdentifier as a value: a bare identifier that is not reserved is kept,
      "error" becomes "_error", anything else is escaped and quoted, except that an
      escaped trailing '?' loses its backslash and is quoted only when the name before
      it is reserved. Reading the character before a one-character "?" fails. */
  function EscapedIdentifier(identifier: string, keywords: set<string>, separators: set<char>): (r: Result<string>)
    ensures r.Err? ==> r.error == StringIndexOutOfBounds
    ensures r.Ok? ==> r.value != []
  {
    if !NeedsEscape(identifier, keywords) then Ok(identifier)
    else if identifier == "error" then Ok("_error")
    else
      var e := EscapeSpecials(identifier, separators);
      if !EndsWithMarker(e) then Ok("'" + e)
      else if |e| < 2 then Err(StringIndexOutOfBounds)
      else
        var t := WithoutMarkerEscape(e);
        Ok(if t[..|t| - 1] in keywords then "'" + t else t)
  }

  /** The escaped text of a name ends in '?' exactly when the name does, and it is too
      short to look behind the marker only for the name "?" when '?' is not a separator. */
  lemma EscapedMarkerShape(identifier: string, separators: set<char>)
    ensures EndsWithMarker(EscapeSpecials(identifier, separators)) <==> EndsWithMarker(identifier)
    ensures EndsWithMarker(identifier) ==>
              (|EscapeSpecials(identifier, separators)| < 2 <==> identifier == "?" && '?' !in separators)
  {
    if EndsWithMarker(identifier) {
      var p := identifier[..|identifier| - 1];
      assert identifier == p + "?";
      MarkerEscape(p, separators);
      if identifier == "?" {
        assert p == [];
      }
    } else {
      QuotedBranch(identifier, separators);
    }
  }

  /** With '?' among the separators, a name ending in the marker comes out as its escaped
      stem followed by a plain '?', quoted only when the stem is reserved. */
  lemma EscapedMarkedName(identifier: string, keywords: set<string>, separators: set<char>)
    requires EndsWithMarker(identifier) && '?' in separators
    ensures var name := EscapeSpecials(identifier[..|identifier| - 1], separators);
            EscapedIdentifier(identifier, keywords, separators)
              == Ok(if name in keywords then "'" + name + "?" else name + "?")
  {
    var p := identifier[..|identifier| - 1];
    var name := EscapeSpecials(p, separators);
    assert identifier == p + "?";
    assert !IsIdentifierPart(identifier[|identifier| - 1]);
    assert identifier != "error";
    MarkerEscape(p, separators);
    var e := EscapeSpecials(identifier, separators);
    assert e == name + "\\?";
    MarkerUnescaped(name);
    var t := name + "?";
    assert WithoutMarkerEscape(e) == t;
    assert t[..|t| - 1] == name;
    assert "'" + t == "'" + name + "?";
  }

  /** The only failure of escapeIdentifier: looking behind the marker of the name "?"
      when '?' is not escaped. */
  lemma EscapedIdentifierFails(identifier: string, keywords: set<string>, separators: set<char>)
    ensures EscapedIdentifier(identifier, keywords, separators).Err?
            <==> identifier == "?" && '?' !in separators
    ensures EscapedIdentifier(identifier, keywords, separators).Err? ==>
              EscapedIdentifier(identifier, keywords, separators).error == StringIndexOutOfBounds
  {
    EscapedMarkerShape(identifier, separators);
    if identifier == "?" {
      assert !IsBareIdentifier(identifier);
    }
  }

  /** Nothing is lost in escaping: when the backslash, the quote and the marker are
      separators, dropping the quote and resolving the escapes gives the name back. */
  lemma EscapedIdentifierReadsBack(identifier: string, keywords: set<string>, separators: set<char>)
    requires EscapesMarkers(separators) && identifier != "error"
    ensures var r := EscapedIdentifier(identifier, keywords, separators);
            r.Ok? && Unescape(Unquote(r.value)) == identifier
  {
    if !NeedsEscape(identifier, keywords) {
      UnescapePlain(identifier);
    } else if EndsWithMarker(identifier) {
      var p := identifier[..|identifier| - 1];
      assert identifier == p + "?";
      EscapedMarkedName(identifier, keywords, separators);
      MarkedNameReadBack(p, separators);
    } else {
      QuotedBranch(identifier, separators);
    }
  }

  /** When '?' is a separator escapeIdentifier always succeeds with a legal identifier,
      and a reserved word never comes back bare. */
  lemma EscapedIdentifierIsValid(identifier: string, keywords: set<string>, separators: set<char>)
    requires '?' in separators
    ensures var r := EscapedIdentifier(identifier, keywords, separators);
            r.Ok? && IsValidIdentifier(r.value, keywords, separators)
  {
    if !NeedsEscape(identifier, keywords) || identifier == "error" {
    } else if EndsWithMarker(identifier) {
      var p := identifier[..|identifier| - 1];
      assert identifier == p + "?";
      EscapedMarkedName(identifier, keywords, separators);
      EscapedIsWellEscaped(p, separators);
      MarkedNameValid(EscapeSpecials(p, separators), keywords, separators);
    } else {
      QuotedBranch(identifier, separators);
    }
  }

  /** escapeIdentifier: reassigns the name step by step and deletes the backslash before a
      trailing '?' in place. */
  method EscapeIdentifier(identifier: string, keywords: set<string>, separators: set<char>)
    returns (r: Result<string>)
    ensures r == EscapedIdentifier(identifier, keywords, separators)
    // a bare identifier that is not reserved is kept as it is
    ensures !NeedsEscape(identifier, keywords) ==> r == Ok(identifier)
    // the one reserved word with a fixed replacement
    ensures NeedsEscape(identifier, keywords) && identifier == "error" ==> r == Ok("_error")
    // without a trailing '?' the escaped text is always quoted
    ensures NeedsEscape(identifier, keywords) && identifier != "error" && !EndsWithMarker(identifier) ==>
              r == Ok("'" + EscapeSpecials(identifier, separators))
  {
    var id := identifier;
    if !IsBareIdentifier(id) || id in keywords {
      if id == "error" {
        id := "_error";
      } else {
        id := EscapeSpecials(id, separators);
        EscapedMarkerShape(identifier, separators);
        if EndsWithMarker(id) {
          if |id| < 2 {
            return Err(StringIndexOutOfBounds);
          }
          ghost var escaped := id;
          if id[|id| - 2] == '\\' {
            id := id[..|id| - 2] + id[|id| - 1..];
          }
          assert id == WithoutMarkerEscape(escaped);
          if id[..|id| - 1] in keywords {
            id := "'" + id;
          } else {
            return Ok(id);
          }
        } else {
          id := "'" + id;
        }
      }
    }
    return Ok(id);
  }

  // ------------------------------------------------------------------ getValidName

  /** The fields of s between separator characters, in order, empty ones included;
      there is always one more field than there are separators. */
  function Fields(s: string, separators: set<char>): (r: seq<string>)
    ensures |r| == |SeparatorsIn(s, separators)| + 1
    decreases |s|
  {
    if s == [] then [""]
    else
      var rest := Fields(s[1..], separators);
      if s[0] in separators then [""] + rest
      else [[s[0]] + rest[0]] + rest[1..]
  }

  /** The parts with their trailing empty ones removed: what is kept does not end in an
      empty part. */
  function DropTrailingEmpty(parts: seq<string>): (r: seq<string>)
    ensures |r| <= |parts|
    ensures r != [] ==> r[|r| - 1] != ""
    decreases |parts|
  {
    if parts == [] then []
    else if parts[|parts| - 1] == "" then DropTrailingEmpty(parts[..|parts| - 1])
    else parts
  }

  /** String.split on a one-character pattern: the fields, without the trailing empty
      ones, except that the empty text splits into one empty part. */
  function Split(s: string, separators: set<char>): (r: seq<string>)
    ensures |r| <= |SeparatorsIn(s, separators)| + 1
    ensures s != [] && r != [] ==> r[|r| - 1] != ""
  {
    if s == [] then [""] else DropTrailingEmpty(Fields(s, separators))
  }

  /** The parts joined together. */
  function Concat(parts: seq<string>): (r: string)
    decreases |parts|
  {
    if parts == [] then "" else parts[0] + Concat(parts[1..])
  }

  /** The text with every separator character removed. */
  function RemoveSeparators(s: string, separators: set<char>): (r: string)
    ensures |r| + |SeparatorsIn(s, separators)| == |s|
    decreases |s|
  {
    if s == [] then []
    else (if s[0] in separators then [] else [s[0]]) + RemoveSeparators(s[1..], separators)
  }

  /** First character upper case, the rest lower case. */
  function TitleCase(part: string): (r: string)
    requires part != []
    ensures |r| == |part|
  {
    [ToUpper(part[0])] + LowerAll(part[1..])
  }

  /** What one part contributes to the name: nothing when it is blank, else the part,
      title-cased when the name was split into several parts. */
  function Piece(part: string, titleCase: bool): (r: string)
    ensures |r| <= |part|
  {
    if IsBlank(part) then "" else if titleCase then TitleCase(part) else part
  }

  /** The pieces of the parts, appended in order. */
  function JoinParts(parts: seq<string>, titleCase: bool): (r: string)
    decreases |parts|
  {
    if parts == [] then ""
    else JoinParts(parts[..|parts| - 1], titleCase) + Piece(parts[|parts| - 1], titleCase)
  }

  /** The name before its first character is re-cased: an all-digit name as it is,
      anything else split and joined. */
  function IntermediateName(identifier: string, separators: set<char>): (r: string)
  {
    if IsAllDigits(identifier) then identifier
    else
      var parts := Split(identifier, separators);
      JoinParts(parts, |parts| > 1)
  }

  /** The first character upper-cased for a type name, lower-cased otherwise. */
  function CaseFirst(name: string, isSchema: bool): (r: string)
    requires name != []
    ensures |r| == |name|
  {
    [if isSchema then ToUpper(name[0]) else ToLower(name[0])] + name[1..]
  }

  /** getValidName as a value: substring(0, 1) of an empty intermediate name fails, and
      that is its only failure. */
  function ValidName(identifier: string, isSchema: bool, separators: set<char>): (r: Result<string>)
    ensures r.Err? ==> r.error == StringIndexOutOfBounds
    ensures r.Ok? ==> r.value != [] && |r.value| == |IntermediateName(identifier, separators)|
  {
    var name := IntermediateName(identifier, separators);
    if name == [] then Err(StringIndexOutOfBounds) else Ok(CaseFirst(name, isSchema))
  }

  /** getValidName: appends the pieces of the split parts to a builder, one part at a time. */
  method GetValidName(identifier: string, isSchema: bool, separators: set<char>) returns (r: Result<string>)
    ensures r == ValidName(identifier, isSchema, separators)
  {
    var name := identifier;
    if !IsAllDigits(name) {
      var split := Split(name, separators);
      var validName := "";
      for i := 0 to |split|
        invariant validName == JoinParts(split[..i], |split| > 1)
      {
        var part := split[i];
        if !IsBlank(part) {
          if |split| > 1 {
            part := [ToUpper(part[0])] + LowerAll(part[1..]);
          }
          validName := validName + part;
        }
        assert split[..i + 1][..i] == split[..i];
      }
      assert split[..|split|] == split;
      name := validName;
    }
    if name == [] {
      return Err(StringIndexOutOfBounds);
    }
    if isSchema {
      r := Ok([ToUpper(name[0])] + name[1..]);
    } else {
      r := Ok([ToLower(name[0])] + name[1..]);
    }
  }

  // ------------------------------------------------- properties of getValidName

  lemma IsBlankAppend(a: string, b: string)
    ensures IsBlank(a + b) <==> IsBlank(a) && IsBlank(b)
  {
    if IsBlank(a) && IsBlank(b) {
      forall i | 0 <= i < |a + b|
        ensures IsWhitespace((a + b)[i])
      {
        if i < |a| { assert (a + b)[i] == a[i]; } else { assert (a + b)[i] == b[i - |a|]; }
      }
    }
    if IsBlank(a + b) {
      forall i | 0 <= i < |a| ensures IsWhitespace(a[i]) { assert (a + b)[i] == a[i]; }
      forall i | 0 <= i < |b| ensures IsWhitespace(b[i]) { assert (a + b)[|a| + i] == b[i]; }
    }
  }

  /** Case mapping neither creates nor removes white space. */
  lemma CaseMapWhitespace(c: char)
    ensures IsWhitespace(ToUpper(c)) <==> IsWhitespace(c)
    ensures IsWhitespace(ToLower(c)) <==> IsWhitespace(c)
  {
  }

  /** A blank part contributes nothing; any other part contributes a piece that is not blank. */
  lemma PieceBlank(part: string, titleCase: bool)
    ensures IsBlank(part) ==> Piece(part, titleCase) == ""
    ensures !IsBlank(part) ==> !IsBlank(Piece(part, titleCase))
  {
    if !IsBlank(part) && titleCase {
      var i :| 0 <= i < |part| && !IsWhitespace(part[i]);
      var t := TitleCase(part);
      CaseMapWhitespace(part[i]);
      if i == 0 {
        assert !IsWhitespace(t[0]);
      } else {
        assert t[i] == LowerAll(part[1..])[i - 1] == ToLower(part[i]);
      }
    }
  }

  predicate AllBlank(parts: seq<string>)
  {
    forall i :: 0 <= i < |parts| ==> IsBlank(parts[i])
  }

  /** The joined name is empty when every part is blank, and not blank otherwise. */
  lemma {:induction false} JoinPartsBlank(parts: seq<string>, titleCase: bool)
    ensures AllBlank(parts) ==> JoinParts(parts, titleCase) == ""
    ensures !AllBlank(parts) ==> !IsBlank(JoinParts(parts, titleCase))
    decreases |parts|
  {
    if parts != [] {
      var init := parts[..|parts| - 1];
      var last := parts[|parts| - 1];
      JoinPartsBlank(init, titleCase);
      PieceBlank(last, titleCase);
      IsBlankAppend(JoinParts(init, titleCase), Piece(last, titleCase));
      if AllBlank(parts) {
        assert AllBlank(init);
      } else if AllBlank(init) {
        assert !IsBlank(last);
      }
    }
  }

  /** Splitting keeps the fields up to the last non-empty one; everything dropped is empty. */
  lemma {:induction false} DropTrailingEmptyPrefix(parts: seq<string>)
    ensures var r := DropTrailingEmpty(parts);
      && |r| <= |parts| && r == parts[..|r|]
      && (forall i :: |r| <= i < |parts| ==> parts[i] == "")
    decreases |parts|
  {
    if parts != [] && parts[|parts| - 1] == "" {
      var init := parts[..|parts| - 1];
      DropTrailingEmptyPrefix(init);
      var r := DropTrailingEmpty(init);
      assert init[..|r|] == parts[..|r|];
    }
  }

  /** No field holds a separator. */
  lemma {:induction false} FieldsSeparatorFree(s: string, separators: set<char>)
    ensures forall i :: 0 <= i < |Fields(s, separators)| ==> SeparatorFree(Fields(s, separators)[i], separators)
    decreases |s|
  {
    if s != [] {
      FieldsSeparatorFree(s[1..], separators);
      var rest := Fields(s[1..], separators);
      if s[0] !in separators {
        var first := [s[0]] + rest[0];
        assert SeparatorFree(rest[0], separators);
        assert forall k :: 1 <= k < |first| ==> first[k] == rest[0][k - 1];
        assert Fields(s, separators) == [first] + rest[1..];
      }
    }
  }

  lemma {:induction false} FieldsConcat(s: string, separators: set<char>)
    ensures Concat(Fields(s, separators)) == RemoveSeparators(s, separators)
    decreases |s|
  {
    if s != [] {
      FieldsConcat(s[1..], separators);
      var rest := Fields(s[1..], separators);
      assert Concat(rest) == rest[0] + Concat(rest[1..]);
      if s[0] in separators {
        assert ([""] + rest)[1..] == rest;
      } else {
        var f := [[s[0]] + rest[0]] + rest[1..];
        assert f[1..] == rest[1..];
        assert Concat(f) == ([s[0]] + rest[0]) + Concat(rest[1..]);
      }
    }
  }

  lemma {:induction false} ConcatBlank(parts: seq<string>)
    ensures IsBlank(Concat(parts)) <==> AllBlank(parts)
    decreases |parts|
  {
    if parts != [] {
      ConcatBlank(parts[1..]);
      IsBlankAppend(parts[0], Concat(parts[1..]));
      if AllBlank(parts) {
        assert AllBlank(parts[1..]);
      }
      if IsBlank(parts[0]) && AllBlank(parts[1..]) {
        forall i | 0 <= i < |parts| ensures IsBlank(parts[i]) {
          if i > 0 { assert parts[i] == parts[1..][i - 1]; }
        }
      }
    }
  }

  lemma {:induction false} RemoveSeparatorsBlank(s: string, separators: set<char>)
    ensures IsBlank(RemoveSeparators(s, separators))
            <==> forall i :: 0 <= i < |s| ==> s[i] in separators || IsWhitespace(s[i])
    decreases |s|
  {
    if s != [] {
      RemoveSeparatorsBlank(s[1..], separators);
      var head := if s[0] in separators then [] else [s[0]];
      IsBlankAppend(head, RemoveSeparators(s[1..], separators));
      assert forall i :: 1 <= i < |s| ==> s[i] == s[1..][i - 1];
    }
  }

  /** The fields put back together, with the given separator characters between them. */
  function Rejoin(fields: seq<string>, between: string): (r: string)
    requires |fields| == |between| + 1
    decreases |between|
  {
    if between == [] then fields[0]
    else fields[0] + [between[0]] + Rejoin(fields[1..], between[1..])
  }

  /** The fields, rejoined by the separators of the text in their order, give the text
      back: each field is exactly the text between two consecutive separators. */
  lemma {:induction false} FieldsRejoin(s: string, separators: set<char>)
    ensures Rejoin(Fields(s, separators), SeparatorsIn(s, separators)) == s
    decreases |s|
  {
    if s != [] {
      var t := s[1..];
      var rest := Fields(t, separators);
      var between := SeparatorsIn(t, separators);
      FieldsRejoin(t, separators);
      if s[0] in separators {
        var f := [""] + rest;
        assert Fields(s, separators) == f && SeparatorsIn(s, separators) == [s[0]] + between;
        assert f[1..] == rest;
        assert ([s[0]] + between)[1..] == between;
        calc {
          Rejoin(f, [s[0]] + between);
          "" + [s[0]] + Rejoin(rest, between);
          [s[0]] + t;
          { assert [s[0]] + t == s; }
          s;
        }
      } else {
        var f := [[s[0]] + rest[0]] + rest[1..];
        assert Fields(s, separators) == f && SeparatorsIn(s, separators) == between;
        assert f[1..] == rest[1..];
        if between == [] {
          assert Rejoin(f, between) == [s[0]] + rest[0];
          assert [s[0]] + t == s;
        } else {
          calc {
            Rejoin(f, between);
            ([s[0]] + rest[0]) + [between[0]] + Rejoin(rest[1..], between[1..]);
            [s[0]] + (rest[0] + [between[0]] + Rejoin(rest[1..], between[1..]));
            [s[0]] + Rejoin(rest, between);
            { assert [s[0]] + t == s; }
            s;
          }
        }
      }
    }
  }

  /** The parts joined together are empty exactly when every part is. */
  lemma {:induction false} ConcatEmpty(parts: seq<string>)
    ensures Concat(parts) == "" <==> forall k :: 0 <= k < |parts| ==> parts[k] == ""
    decreases |parts|
  {
    if parts != [] {
      ConcatEmpty(parts[1..]);
      assert forall k :: 1 <= k < |parts| ==> parts[k] == parts[1..][k - 1];
    }
  }

  /** Removing the separators leaves nothing exactly when the text is all separators. */
  lemma {:induction false} RemoveSeparatorsEmpty(s: string, separators: set<char>)
    ensures RemoveSeparators(s, separators) == "" <==> forall j :: 0 <= j < |s| ==> s[j] in separators
    decreases |s|
  {
    if s != [] {
      RemoveSeparatorsEmpty(s[1..], separators);
      assert forall j :: 1 <= j < |s| ==> s[j] == s[1..][j - 1];
    }
  }

  /** Some field after the first one is not empty. */
  predicate LaterFieldNonEmpty(fields: seq<string>)
  {
    exists k :: 1 <= k < |fields| && fields[k] != ""
  }

  /** A separator occurs somewhere before a character that is not a separator. */
  predicate SeparatorBeforeWord(s: string, separators: set<char>)
  {
    exists i, j :: 0 <= i < j < |s| && s[i] in separators && s[j] !in separators
  }

  /** A field after the first is not empty exactly when some separator is followed, later
      on, by a character that is not a separator. */
  lemma {:induction false} FieldsLaterNonEmpty(s: string, separators: set<char>)
    ensures LaterFieldNonEmpty(Fields(s, separators)) <==> SeparatorBeforeWord(s, separators)
    decreases |s|
  {
    if s != [] {
      if s[0] in separators {
        LaterFieldsAfterSeparator(s, separators);
      } else {
        FieldsLaterNonEmpty(s[1..], separators);
        LaterFieldsAfterWordChar(s, separators);
        SeparatorBeforeWordTail(s, separators);
      }
    }
  }

  /** After a leading separator, a later field is not empty exactly when some character
      after it is not a separator. */
  lemma LaterFieldsAfterSeparator(s: string, separators: set<char>)
    requires s != [] && s[0] in separators
    ensures LaterFieldNonEmpty(Fields(s, separators)) <==> SeparatorBeforeWord(s, separators)
  {
    var t := s[1..];
    var rest := Fields(t, separators);
    var f := Fields(s, separators);
    assert f == [""] + rest;
    ConcatEmpty(rest);
    FieldsConcat(t, separators);
    RemoveSeparatorsEmpty(t, separators);
    if LaterFieldNonEmpty(f) {
      var k :| 1 <= k < |f| && f[k] != "";
      assert rest[k - 1] != "";
      var j :| 0 <= j < |t| && t[j] !in separators;
      assert s[0] in separators && s[j + 1] !in separators;
    }
    if SeparatorBeforeWord(s, separators) {
      var i, j :| 0 <= i < j < |s| && s[i] in separators && s[j] !in separators;
      assert t[j - 1] !in separators;
      var k :| 0 <= k < |rest| && rest[k] != "";
      assert f[k + 1] == rest[k];
    }
  }

  /** A leading character that is not a separator joins the first field, so the later
      fields are those of the rest. */
  lemma LaterFieldsAfterWordChar(s: string, separators: set<char>)
    requires s != [] && s[0] !in separators
    ensures LaterFieldNonEmpty(Fields(s, separators)) <==> LaterFieldNonEmpty(Fields(s[1..], separators))
  {
    var rest := Fields(s[1..], separators);
    var f := Fields(s, separators);
    assert f[1..] == rest[1..];
    LaterFieldsSameTail(f, rest);
  }

  /** Whether a later field is not empty depends only on the later fields. */
  lemma LaterFieldsSameTail(f: seq<string>, g: seq<string>)
    requires f != [] && g != [] && f[1..] == g[1..]
    ensures LaterFieldNonEmpty(f) <==> LaterFieldNonEmpty(g)
  {
    if LaterFieldNonEmpty(f) {
      var k :| 1 <= k < |f| && f[k] != "";
      assert g[k] == f[1..][k - 1];
    }
    if LaterFieldNonEmpty(g) {
      var k :| 1 <= k < |g| && g[k] != "";
      assert f[k] == g[1..][k - 1];
    }
  }

  /** A leading character that is not a separator does not precede anything as a separator. */
  lemma SeparatorBeforeWordTail(s: string, separators: set<char>)
    requires s != [] && s[0] !in separators
    ensures SeparatorBeforeWord(s, separators) <==> SeparatorBeforeWord(s[1..], separators)
  {
    var t := s[1..];
    if SeparatorBeforeWord(t, separators) {
      var i, j :| 0 <= i < j < |t| && t[i] in separators && t[j] !in separators;
      assert s[i + 1] in separators && s[j + 1] !in separators;
    }
    if SeparatorBeforeWord(s, separators) {
      var i, j :| 0 <= i < j < |s| && s[i] in separators && s[j] !in separators;
      assert t[i - 1] in separators && t[j - 1] !in separators;
    }
  }

  /** A name splits into more than one part exactly when a separator comes before some
      character that is not a separator: separators at the end only are dropped. */
  lemma SplitManyParts(s: string, separators: set<char>)
    ensures |Split(s, separators)| > 1 <==> SeparatorBeforeWord(s, separators)
  {
    if s != [] {
      var f := Fields(s, separators);
      var r := DropTrailingEmpty(f);
      DropTrailingEmptyPrefix(f);
      FieldsLaterNonEmpty(s, separators);
      if |r| > 1 {
        assert f[|r| - 1] == r[|r| - 1];
      }
      if LaterFieldNonEmpty(f) {
        var k :| 1 <= k < |f| && f[k] != "";
        assert k < |r|;
      }
    }
  }

  /** Every part of the split is blank exactly when the name holds only separators and white space. */
  lemma SplitAllBlank(s: string, separators: set<char>)
    ensures AllBlank(Split(s, separators))
            <==> forall i :: 0 <= i < |s| ==> s[i] in separators || IsWhitespace(s[i])
  {
    if s != [] {
      var f := Fields(s, separators);
      var r := DropTrailingEmpty(f);
      DropTrailingEmptyPrefix(f);
      assert AllBlank(r) <==> AllBlank(f) by {
        if AllBlank(r) {
          forall i | 0 <= i < |f| ensures IsBlank(f[i]) {
            if i < |r| { assert f[i] == r[i]; }
          }
        }
      }
      ConcatBlank(f);
      FieldsConcat(s, separators);
      RemoveSeparatorsBlank(s, separators);
    }
  }

  /** getValidName fails exactly on a name that is not all digits and holds nothing but
      separators and white space, the empty name included. */
  lemma ValidNameFails(identifier: string, isSchema: bool, separators: set<char>)
    ensures ValidName(identifier, isSchema, separators).Err?
            <==> !IsAllDigits(identifier)
                 && forall i :: 0 <= i < |identifier| ==> identifier[i] in separators || IsWhitespace(identifier[i])
    ensures ValidName(identifier, isSchema, separators).Err? ==>
              ValidName(identifier, isSchema, separators).error == StringIndexOutOfBounds
  {
    if !IsAllDigits(identifier) {
      var parts := Split(identifier, separators);
      JoinPartsBlank(parts, |parts| > 1);
      SplitAllBlank(identifier, separators);
    }
  }

  /** A name without separators is a single field. */
  lemma {:induction false} FieldsOfPlain(s: string, separators: set<char>)
    requires SeparatorFree(s, separators)
    ensures Fields(s, separators) == [s]
    decreases |s|
  {
    if s != [] {
      assert SeparatorFree(s[1..], separators) by {
        assert forall i :: 0 <= i < |s[1..]| ==> s[1..][i] == s[i + 1];
      }
      FieldsOfPlain(s[1..], separators);
      assert [s[0]] + s[1..] == s;
    }
  }

  /** The intermediate name is blank only when it is empty. */
  lemma IntermediateNameBlank(identifier: string, separators: set<char>)
    ensures var n := IntermediateName(identifier, separators); IsBlank(n) ==> n == []
  {
    if !IsAllDigits(identifier) {
      var parts := Split(identifier, separators);
      JoinPartsBlank(parts, |parts| > 1);
    } else if identifier != [] {
      assert !IsWhitespace(identifier[0]);
    }
  }

  /** A separator-free result of getValidName comes back unchanged: it is a single part,
      so it is not title-cased, and re-casing its first character changes nothing. */
  lemma ValidNameStable(identifier: string, isSchema: bool, separators: set<char>)
    requires ValidName(identifier, isSchema, separators).Ok?
    requires SeparatorFree(ValidName(identifier, isSchema, separators).value, separators)
    ensures var v := ValidName(identifier, isSchema, separators).value;
            ValidName(v, isSchema, separators) == Ok(v)
  {
    var n := IntermediateName(identifier, separators);
    var v := CaseFirst(n, isSchema);
    IntermediateNameBlank(identifier, separators);
    CaseMapWhitespace(n[0]);
    assert !IsBlank(v) by {
      var i :| 0 <= i < |n| && !IsWhitespace(n[i]);
      if i > 0 { assert v[i] == n[i]; }
    }
    assert CaseFirst(v, isSchema) == v;
    if !IsAllDigits(v) {
      FieldsOfPlain(v, separators);
      assert DropTrailingEmpty([v]) == [v];
      assert Split(v, separators) == [v];
      assert [v][..0] == [];
      assert JoinParts([v], false) == JoinParts([], false) + Piece(v, false);
      assert IntermediateName(v, separators) == v;
    }
  }

  /** Separators that are neither letters nor digits survive no case mapping. */
  predicate NoWordSeparators(separators: set<char>)
  {
    forall c :: c in separators ==> !IsAsciiLetter(c) && !IsDigit(c)
  }

  lemma SeparatorFreeAppend(a: string, b: string, separators: set<char>)
    ensures SeparatorFree(a + b, separators) <==> SeparatorFree(a, separators) && SeparatorFree(b, separators)
  {
    if SeparatorFree(a + b, separators) {
      assert forall i :: 0 <= i < |a| ==> a[i] == (a + b)[i];
      assert forall i :: 0 <= i < |b| ==> b[i] == (a + b)[|a| + i];
    }
  }

  /** Re-casing a part keeps it free of separators. */
  lemma PieceSeparatorFree(part: string, titleCase: bool, separators: set<char>)
    requires NoWordSeparators(separators) && SeparatorFree(part, separators)
    ensures SeparatorFree(Piece(part, titleCase), separators)
  {
    if !IsBlank(part) && titleCase {
      var t := TitleCase(part);
      forall i | 0 <= i < |t| ensures t[i] !in separators {
        if i > 0 { assert t[i] == ToLower(part[i]); }
      }
    }
  }

  lemma {:induction false} JoinPartsSeparatorFree(parts: seq<string>, titleCase: bool, separators: set<char>)
    requires NoWordSeparators(separators)
    requires forall i :: 0 <= i < |parts| ==> SeparatorFree(parts[i], separators)
    ensures SeparatorFree(JoinParts(parts, titleCase), separators)
    decreases |parts|
  {
    if parts != [] {
      var init := parts[..|parts| - 1];
      JoinPartsSeparatorFree(init, titleCase, separators);
      PieceSeparatorFree(parts[|parts| - 1], titleCase, separators);
      SeparatorFreeAppend(JoinParts(init, titleCase), Piece(parts[|parts| - 1], titleCase), separators);
    }
  }

  /** When no letter or digit is a separator, getValidName removes every separator. */
  lemma ValidNameSeparatorFree(identifier: string, isSchema: bool, separators: set<char>)
    requires NoWordSeparators(separators)
    ensures ValidName(identifier, isSchema, separators).Ok? ==>
              SeparatorFree(ValidName(identifier, isSchema, separators).value, separators)
  {
    var n := IntermediateName(identifier, separators);
    if !IsAllDigits(identifier) {
      var parts := Split(identifier, separators);
      if identifier != [] {
        var f := Fields(identifier, separators);
        FieldsSeparatorFree(identifier, separators);
        DropTrailingEmptyPrefix(f);
        assert forall i :: 0 <= i < |parts| ==> parts[i] == f[i];
      }
      JoinPartsSeparatorFree(parts, |parts| > 1, separators);
    }
    if n != [] {
      var v := CaseFirst(n, isSchema);
      forall i | 0 <= i < |v| ensures v[i] !in separators {
        if i > 0 { assert v[i] == n[i]; }
      }
    }
  }

  /** getValidName is idempotent when no letter or digit is a separator. */
  lemma ValidNameIdempotent(identifier: string, isSchema: bool, separators: set<char>)
    requires NoWordSeparators(separators)
    ensures var r := ValidName(identifier, isSchema, separators);
            r.Ok? ==> ValidName(r.value, isSchema, separators) == r
  {
    if ValidName(identifier, isSchema, separators).Ok? {
      ValidNameSeparatorFree(identifier, isSchema, separators);
      ValidNameStable(identifier, isSchema, separators);
    }
  }

  lemma LowerAllAppend(a: string, b: string)
    ensures LowerAll(a + b) == LowerAll(a) + LowerAll(b)
  {
  }

  lemma {:induction false} ConcatAppendOne(parts: seq<string>, part: string)
    ensures Concat(parts + [part]) == Concat(parts) + part
    decreases |parts|
  {
    if parts == [] {
      assert [] + [part] == [part];
      assert [part][1..] == [];
    } else {
      assert (parts + [part])[1..] == parts[1..] + [part];
      ConcatAppendOne(parts[1..], part);
    }
  }

  /** Up to case, a part that is not blank is what it contributes. */
  lemma LowerPiece(part: string, titleCase: bool)
    requires IsBlank(part) ==> part == ""
    ensures LowerAll(Piece(part, titleCase)) == LowerAll(part)
  {
    if !IsBlank(part) && titleCase {
      var t := TitleCase(part);
      assert forall i :: 0 <= i < |t| ==> ToLower(t[i]) == ToLower(part[i]);
    }
  }

  /** Up to case, joining the parts concatenates them, provided the only blank part is the empty one. */
  lemma {:induction false} JoinPartsLower(parts: seq<string>, titleCase: bool)
    requires forall i :: 0 <= i < |parts| ==> IsBlank(parts[i]) ==> parts[i] == ""
    ensures LowerAll(JoinParts(parts, titleCase)) == LowerAll(Concat(parts))
    decreases |parts|
  {
    if parts != [] {
      var init := parts[..|parts| - 1];
      var last := parts[|parts| - 1];
      var joined := JoinParts(init, titleCase);
      var piece := Piece(last, titleCase);
      calc {
        LowerAll(JoinParts(parts, titleCase));
        LowerAll(joined + piece);
        { LowerAllAppend(joined, piece); }
        LowerAll(joined) + LowerAll(piece);
        { JoinPartsLower(init, titleCase); LowerPiece(last, titleCase); }
        LowerAll(Concat(init)) + LowerAll(last);
        { LowerAllAppend(Concat(init), last); }
        LowerAll(Concat(init) + last);
        { assert parts == init + [last]; ConcatAppendOne(init, last); }
        LowerAll(Concat(parts));
      }
    }
  }

  /** The trailing empty fields add nothing to the text. */
  lemma {:induction false} DropTrailingEmptyConcat(parts: seq<string>)
    ensures Concat(DropTrailingEmpty(parts)) == Concat(parts)
    decreases |parts|
  {
    if parts != [] && parts[|parts| - 1] == "" {
      var init := parts[..|parts| - 1];
      DropTrailingEmptyConcat(init);
      assert parts == init + [""];
      ConcatAppendOne(init, "");
    }
  }

  /** The parts of a split hold no separator, and together they are the name without its separators. */
  lemma SplitParts(s: string, separators: set<char>)
    ensures forall i :: 0 <= i < |Split(s, separators)| ==> SeparatorFree(Split(s, separators)[i], separators)
    ensures Concat(Split(s, separators)) == RemoveSeparators(s, separators)
  {
    if s != [] {
      var f := Fields(s, separators);
      FieldsSeparatorFree(s, separators);
      DropTrailingEmptyPrefix(f);
      DropTrailingEmptyConcat(f);
      FieldsConcat(s, separators);
    } else {
      assert Concat([""]) == "" + Concat([]);
    }
  }

  /** Up to case, re-casing the first character changes nothing. */
  lemma LowerCaseFirst(name: string, isSchema: bool)
    requires name != []
    ensures LowerAll(CaseFirst(name, isSchema)) == LowerAll(name)
  {
    var v := CaseFirst(name, isSchema);
    assert forall i :: 0 <= i < |v| ==> ToLower(v[i]) == ToLower(name[i]);
  }

  /** With white space among the separators, a part free of separators is blank only when empty. */
  lemma BlankPartEmpty(part: string, separators: set<char>)
    requires Whitespace <= separators && SeparatorFree(part, separators)
    ensures IsBlank(part) ==> part == ""
  {
    if part != "" {
      assert !IsWhitespace(part[0]);
    }
  }

  /** When white space is among the separators, getValidName loses no character of the name
      other than the separators: up to case, it is the name with its separators removed. */
  lemma ValidNameKeepsCharacters(identifier: string, isSchema: bool, separators: set<char>)
    requires Whitespace <= separators && !IsAllDigits(identifier)
    ensures ValidName(identifier, isSchema, separators).Ok? ==>
              LowerAll(ValidName(identifier, isSchema, separators).value)
              == LowerAll(RemoveSeparators(identifier, separators))
  {
    var parts := Split(identifier, separators);
    SplitParts(identifier, separators);
    forall i | 0 <= i < |parts| ensures IsBlank(parts[i]) ==> parts[i] == "" {
      BlankPartEmpty(parts[i], separators);
    }
    JoinPartsLower(parts, |parts| > 1);
    var n := IntermediateName(identifier, separators);
    if n != [] {
      LowerCaseFirst(n, isSchema);
    }
  }

  /** One step of splitting: a separator starts a new field, any other character joins the first one. */
  lemma FieldsCons(c: char, s: string, separators: set<char>)
    ensures Fields([c] + s, separators)
            == if c in separators then [""] + Fields(s, separators)
               else [[c] + Fields(s, separators)[0]] + Fields(s, separators)[1..]
  {
    assert ([c] + s)[0] == c && ([c] + s)[1..] == s;
  }

  lemma FieldsOfSeparatorFirst()
    ensures Fields("_c", {'_'}) == ["", "c"]
  {
    FieldsOfPlain("c", {'_'});
    FieldsCons('_', "c", {'_'});
    assert "_c" == ['_'] + "c";
  }

  lemma FieldsOfSnakeCase()
    ensures Fields("aB_c", {'_'}) == ["aB", "c"]
  {
    var sep := {'_'};
    FieldsOfSeparatorFirst();
    FieldsCons('B', "_c", sep);
    assert "B_c" == ['B'] + "_c" && ['B'] + "" == "B";
    FieldsCons('a', "B_c", sep);
    assert "aB_c" == ['a'] + "B_c" && ['a'] + "B" == "aB";
  }

  lemma JoinPartsOfSnakeCase()
    ensures JoinParts(["aB", "c"], true) == "AbC"
  {
    var parts := ["aB", "c"];
    assert !IsWhitespace("aB"[0]) && !IsWhitespace("c"[0]);
    assert TitleCase("aB") == "Ab" by { assert LowerAll("B") == "b"; }
    assert TitleCase("c") == "C" by { assert LowerAll("") == ""; }
    assert parts[..1] == ["aB"] && ["aB"][..0] == [];
    assert JoinParts(parts, true) == JoinParts(["aB"], true) + "C";
    assert JoinParts(["aB"], true) == "" + "Ab";
  }

  /** A name written with separators becomes a type name with every part title-cased. */
  lemma ValidNameOfSnakeCase()
    ensures ValidName("aB_c", true, {'_'}) == Ok("AbC")
  {
    FieldsOfSnakeCase();
    JoinPartsOfSnakeCase();
    assert !IsDigit("aB_c"[0]);
    assert IntermediateName("aB_c", {'_'}) == "AbC";
    assert CaseFirst("AbC", true) == "AbC";
  }

  lemma FieldsOfLeadingSeparator()
    ensures Fields("_AB", {'_'}) == ["", "AB"]
  {
    FieldsOfPlain("AB", {'_'});
    FieldsCons('_', "AB", {'_'});
    assert "_AB" == ['_'] + "AB";
  }

  lemma JoinPartsOfLeadingSeparator()
    ensures JoinParts(["", "AB"], true) == "Ab"
  {
    var parts := ["", "AB"];
    assert !IsWhitespace("AB"[0]);
    assert TitleCase("AB") == "Ab" by { assert LowerAll("B") == "b"; }
    assert parts[..1] == [""] && [""][..0] == [];
    assert JoinParts(parts, true) == JoinParts([""], true) + "Ab";
    assert JoinParts([""], true) == "" + "";
  }

  /** A leading separator gives a blank first part, which still turns title-casing on; the
      field name then starts in lower case. */
  lemma ValidNameOfLeadingSeparator()
    ensures ValidName("_AB", false, {'_'}) == Ok("ab")
  {
    FieldsOfLeadingSeparator();
    JoinPartsOfLeadingSeparator();
    assert !IsDigit("_AB"[0]);
    assert IntermediateName("_AB", {'_'}) == "Ab";
    assert CaseFirst("Ab", false) == "ab";
  }

  lemma FieldsOfTrailingSeparator()
    ensures Fields("aB_", {'_'}) == ["aB", ""]
  {
    var sep := {'_'};
    assert Fields("", sep) == [""];
    FieldsCons('_', "", sep);
    assert "_" == ['_'] + "";
    FieldsCons('B', "_", sep);
    assert "B_" == ['B'] + "_" && ['B'] + "" == "B";
    FieldsCons('a', "B_", sep);
    assert "aB_" == ['a'] + "B_" && ['a'] + "B" == "aB";
  }

  /** A trailing separator gives no part at all, so the single part is kept as written. */
  lemma ValidNameOfTrailingSeparator()
    ensures ValidName("aB_", true, {'_'}) == Ok("AB")
  {
    FieldsOfTrailingSeparator();
    assert !IsDigit("aB_"[0]);
    assert ["aB", ""][..1] == ["aB"];
    assert DropTrailingEmpty(["aB"]) == ["aB"];
    assert Split("aB_", {'_'}) == ["aB"];
    assert !IsWhitespace("aB"[0]);
    assert ["aB"][..0] == [];
    assert JoinParts(["aB"], false) == "" + "aB";
    assert IntermediateName("aB_", {'_'}) == "aB";
    assert CaseFirst("aB", true) == "AB";
  }
}
