/**
 * The add-note input handling of the main window: the note text and the tag field
 * are stripped of surrounding whitespace, the tag field is cut at every comma, each
 * piece is stripped again, and a request is formed only when the text is not blank.
 */
module Input {
  import opened Wrappers

  /**
   * The characters Python's `str.strip()` removes by default: those for which
   * `str.isspace()` holds.
   */
  predicate IsSpace(c: char)
  {
    var n := c as int;
    || n == 0x20 || 0x09 <= n <= 0x0D || 0x1C <= n <= 0x1F
    || n == 0x85 || n == 0xA0 || n == 0x1680 || 0x2000 <= n <= 0x200A
    || n == 0x2028 || n == 0x2029 || n == 0x202F || n == 0x205F || n == 0x3000
  }

  /** Every character of `s` is whitespace. */
  predicate Blank(s: string)
  {
    forall i :: 0 <= i < |s| ==> IsSpace(s[i])
  }

  /** Neither end of `s` is whitespace. */
  predicate Trimmed(s: string)
  {
    s == [] || (!IsSpace(s[0]) && !IsSpace(s[|s| - 1]))
  }

  /** The number of whitespace characters `s` starts with. */
  function LeadingSpaces(s: string): (n: nat)
    ensures n <= |s|
    ensures forall i :: 0 <= i < n ==> IsSpace(s[i])
    ensures n == |s| || !IsSpace(s[n])
  {
    if s == [] || !IsSpace(s[0]) then 0 else 1 + LeadingSpaces(s[1..])
  }

  /** The number of whitespace characters `s` ends with. */
  function TrailingSpaces(s: string): (n: nat)
    ensures n <= |s|
    ensures forall i :: |s| - n <= i < |s| ==> IsSpace(s[i])
    ensures n == |s| || !IsSpace(s[|s| - n - 1])
  {
    if s == [] || !IsSpace(s[|s| - 1]) then 0 else 1 + TrailingSpaces(s[..|s| - 1])
  }

  /**
   * `s.strip()`: `s` with its leading and trailing whitespace removed. The result is
   * the slice of `s` that starts at its first non-whitespace character and ends at
   * its last one, and it is empty exactly when `s` is blank.
   */
  function Strip(s: string): (r: string)
    ensures LeadingSpaces(s) + |r| <= |s|
    ensures r == s[LeadingSpaces(s)..LeadingSpaces(s) + |r|]
    ensures forall i :: LeadingSpaces(s) + |r| <= i < |s| ==> IsSpace(s[i])
    ensures Trimmed(r)
    ensures r == [] <==> Blank(s)
  {
    var t := s[LeadingSpaces(s)..];
    t[..|t| - TrailingSpaces(t)]
  }

  /** A string with no whitespace at either end is its own strip. */
  lemma StripTrimmed(s: string)
    requires Trimmed(s)
    ensures Strip(s) == s
  {
    if s != [] {
      assert LeadingSpaces(s) == 0;
      assert s[0..] == s;
      assert TrailingSpaces(s) == 0;
    }
  }

  /** Stripping twice is stripping once. */
  lemma StripIdempotent(s: string)
    ensures Strip(Strip(s)) == Strip(s)
  {
    StripTrimmed(Strip(s));
  }

  /**
   * `s.split(sep)` with an explicit separator: the pieces between consecutive
   * occurrences of `sep`, empty pieces included, so there is always at least one.
   * Joining the pieces back with `sep` gives `s`.
   */
  function Split(s: string, sep: char): (r: seq<string>)
    ensures |r| >= 1
    ensures forall k :: 0 <= k < |r| ==> sep !in r[k]
    ensures Join(r, sep) == s
  {
    if s == [] then [[]]
    else
      var rest := Split(s[1..], sep);
      if s[0] == sep then
        JoinCons([], rest, sep);
        [[]] + rest
      else
        JoinHead(s[0], rest, sep);
        [[s[0]] + rest[0]] + rest[1..]
  }

  /** `sep.join(parts)`: the pieces with one `sep` between each two of them. */
  function Join(parts: seq<string>, sep: char): (r: string)
    requires |parts| >= 1
  {
    if |parts| == 1 then parts[0] else parts[0] + [sep] + Join(parts[1..], sep)
  }

  /** Joining a piece in front of other pieces puts one separator between them. */
  lemma JoinCons(p: string, parts: seq<string>, sep: char)
    requires |parts| >= 1
    ensures Join([p] + parts, sep) == p + [sep] + Join(parts, sep)
  {
    assert ([p] + parts)[1..] == parts;
  }

  /** A character put in front of the first piece lands in front of the joined string. */
  lemma JoinHead(c: char, parts: seq<string>, sep: char)
    requires |parts| >= 1
    ensures Join([[c] + parts[0]] + parts[1..], sep) == [c] + Join(parts, sep)
  {
    var q := [[c] + parts[0]] + parts[1..];
    if |parts| > 1 {
      assert q[1..] == parts[1..];
    }
  }

  /** Splitting what was joined from separator-free pieces gives back those pieces. */
  lemma {:induction false} SplitJoin(parts: seq<string>, sep: char)
    requires |parts| >= 1
    requires forall k :: 0 <= k < |parts| ==> sep !in parts[k]
    ensures Split(Join(parts, sep), sep) == parts
    decreases |Join(parts, sep)|
  {
    var s := Join(parts, sep);
    if parts[0] == [] {
      if |parts| > 1 {
        assert s == [sep] + Join(parts[1..], sep);
        assert s[1..] == Join(parts[1..], sep);
        SplitJoin(parts[1..], sep);
        assert [parts[0]] + parts[1..] == parts;
      }
    } else {
      var c := parts[0][0];
      var q := [parts[0][1..]] + parts[1..];
      assert q[1..] == parts[1..];
      assert forall k :: 0 <= k < |q| ==> sep !in q[k];
      JoinHead(c, q, sep);
      assert [c] + q[0] == parts[0];
      assert [[c] + q[0]] + q[1..] == parts;
      assert s[1..] == Join(q, sep);
      assert s[0] == c && c != sep;
      SplitJoin(q, sep);
    }
  }

  /** The tags entered in the tag field: `[tag.strip() for tag in field.strip().split(',')]`. */
  function ParseTags(field: string): (r: seq<string>)
    ensures |r| == |Split(Strip(field), ',')| >= 1
    ensures forall k :: 0 <= k < |r| ==> ',' !in r[k] && Trimmed(r[k])
    ensures forall k :: 0 <= k < |r| ==> r[k] == Strip(Split(Strip(field), ',')[k])
  {
    var pieces := Split(Strip(field), ',');
    seq(|pieces|, k requires 0 <= k < |pieces| => Strip(pieces[k]))
  }

  /** A blank tag field still yields one tag: the one named by the empty string. */
  lemma BlankTagField(field: string)
    requires Blank(field)
    ensures ParseTags(field) == [""]
  {
    assert Strip(field) == [];
  }

  /** A tag field without commas names the one tag spelled by its stripped text. */
  lemma SingleTag(field: string)
    requires ',' !in field
    ensures ParseTags(field) == [Strip(field)]
  {
    var t := Strip(field);
    assert forall i :: 0 <= i < |t| ==> t[i] == field[LeadingSpaces(field) + i];
    assert ',' !in t;
    SplitJoin([t], ',');
    StripIdempotent(field);
  }

  /** Joining trimmed pieces with a non-whitespace separator gives a trimmed string. */
  lemma {:induction false} JoinTrimmed(parts: seq<string>, sep: char)
    requires |parts| >= 1 && !IsSpace(sep)
    requires forall k :: 0 <= k < |parts| ==> Trimmed(parts[k])
    ensures Trimmed(Join(parts, sep))
  {
    if |parts| > 1 {
      JoinTrimmed(parts[1..], sep);
      var tail := Join(parts[1..], sep);
      var s := parts[0] + [sep] + tail;
      assert s[0] == if parts[0] == [] then sep else parts[0][0];
      assert s[|s| - 1] == if tail == [] then sep else tail[|tail| - 1];
    }
  }

  /**
   * Typing the tags comma-separated gives them back: pieces without commas and
   * without surrounding whitespace are parsed to exactly themselves.
   */
  lemma ParseTagsJoin(parts: seq<string>)
    requires |parts| >= 1
    requires forall k :: 0 <= k < |parts| ==> ',' !in parts[k] && Trimmed(parts[k])
    ensures ParseTags(Join(parts, ',')) == parts
  {
    var field := Join(parts, ',');
    JoinTrimmed(parts, ',');
    StripTrimmed(field);
    SplitJoin(parts, ',');
    forall k | 0 <= k < |parts| ensures Strip(parts[k]) == parts[k] {
      StripTrimmed(parts[k]);
    }
  }

  /** A request to add a note: its text and the tag names to attach. */
  datatype AddRequest = AddRequest(text: string, tagNames: seq<string>)

  /**
   * The add button's handler: no request when the stripped text is empty, otherwise
   * the stripped text with the parsed tags.
   */
  function ParseAddInput(noteField: string, tagField: string): (r: Option<AddRequest>)
    ensures r.None? <==> Blank(noteField)
    ensures r.Some? ==> r.value.text == Strip(noteField) && r.value.text != []
    ensures r.Some? ==> r.value.tagNames == ParseTags(tagField)
  {
    var text := Strip(noteField);
    if text == [] then None else Some(AddRequest(text, ParseTags(tagField)))
  }
}
