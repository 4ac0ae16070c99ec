/** The CORS origin list of the application settings: `ALLOWED_ORIGINS` is a
    single string, either `*` or a comma-separated list of origins, and
    `parsed_origins` turns it into the list the middleware is given. */
module Config {

  /** The value of `ALLOWED_ORIGINS` when the environment does not set it. */
  const DefaultAllowedOrigins: string := "*"

  /** Python's `str.isspace` for one character: the characters `strip()`
      removes when called without arguments. */
  predicate IsSpace(c: char)
  {
    || c == ' '
    || '\t' <= c <= '\r'
    || '\U{1c}' <= c <= '\U{1f}'
    || c == '\U{85}' || c == '\U{a0}' || c == '\U{1680}'
    || '\U{2000}' <= c <= '\U{200a}'
    || c == '\U{2028}' || c == '\U{2029}' || c == '\U{202f}' || c == '\U{205f}' || c == '\U{3000}'
  }

  /** `s` has no leading or trailing whitespace. */
  predicate Stripped(s: string)
  {
    s == [] || (!IsSpace(s[0]) && !IsSpace(s[|s| - 1]))
  }

  /** The index of the first character at or after `i` that is not
      whitespace, or `|s|` when there is none. */
  function SkipSpace(s: string, i: nat): (r: nat)
    requires i <= |s|
    ensures i <= r <= |s|
    ensures forall k :: i <= k < r ==> IsSpace(s[k])
    ensures r < |s| ==> !IsSpace(s[r])
    decreases |s| - i
  {
    if i < |s| && IsSpace(s[i]) then SkipSpace(s, i + 1) else i
  }

  /** The index just past the last character before `j` and not before `lo`
      that is not whitespace, or `lo` when there is none. */
  function SkipSpaceBack(s: string, lo: nat, j: nat): (r: nat)
    requires lo <= j <= |s|
    ensures lo <= r <= j
    ensures forall k :: r <= k < j ==> IsSpace(s[k])
    ensures r > lo ==> !IsSpace(s[r - 1])
    decreases j
  {
    if j > lo && IsSpace(s[j - 1]) then SkipSpaceBack(s, lo, j - 1) else j
  }

  /** `r` is `s` with `i` whitespace characters removed in front and the
      rest of its whitespace removed at the end, and `r` itself neither
      starts nor ends with whitespace. */
  predicate StripOf(s: string, r: string, i: int)
  {
    && 0 <= i && i + |r| <= |s| && r == s[i..i + |r|]
    && (forall k :: 0 <= k < i ==> IsSpace(s[k]))
    && (forall k :: i + |r| <= k < |s| ==> IsSpace(s[k]))
    && Stripped(r)
  }

  /** `s.strip()`. */
  function Strip(s: string): (r: string)
    ensures StripOf(s, r, SkipSpace(s, 0))
  {
    var i := SkipSpace(s, 0);
    var j := SkipSpaceBack(s, i, |s|);
    s[i..j]
  }

  /** Every character of `s.strip()` comes from `s`. */
  lemma StripInside(s: string)
    ensures forall c :: c in Strip(s) ==> c in s
  {
    var i := SkipSpace(s, 0);
    var r := Strip(s);
    forall c | c in r ensures c in s {
      var k :| 0 <= k < |r| && r[k] == c;
      assert r[k] == s[i + k];
    }
  }

  /** A string without surrounding whitespace is its own strip. */
  lemma StripStripped(s: string)
    requires Stripped(s)
    ensures Strip(s) == s
  {
  }

  /** `s.split(",")`: the pieces between the commas, in order; a string with
      `n` commas has `n + 1` pieces, some of them possibly empty. */
  function Split(s: string): (r: seq<string>)
    ensures |r| >= 1
    ensures forall i :: 0 <= i < |r| ==> ',' !in r[i]
    decreases |s|
  {
    if s == [] then [[]]
    else if s[0] == ',' then [[]] + Split(s[1..])
    else
      var rest := Split(s[1..]);
      [[s[0]] + rest[0]] + rest[1..]
  }

  /** `",".join(parts)`. */
  function Join(parts: seq<string>): string
    requires |parts| >= 1
    decreases |parts|
  {
    if |parts| == 1 then parts[0] else parts[0] + [','] + Join(parts[1..])
  }

  /** Splitting at the commas and joining with commas gives the string back. */
  lemma {:induction false} JoinSplit(s: string)
    ensures Join(Split(s)) == s
    decreases |s|
  {
    if s != [] {
      JoinSplit(s[1..]);
      if s[0] == ',' {
        JoinSplitComma(s);
      } else {
        JoinSplitOther(s);
      }
    }
  }

  /** The step of `JoinSplit` for a string that starts with a comma. */
  lemma JoinSplitComma(s: string)
    requires s != [] && s[0] == ',' && Join(Split(s[1..])) == s[1..]
    ensures Join(Split(s)) == s
  {
    var rest := Split(s[1..]);
    assert Split(s) == [[]] + rest;
    assert ([[]] + rest)[1..] == rest;
    assert Join([[]] + rest) == [] + [','] + Join(rest);
    assert s == [s[0]] + s[1..];
  }

  /** The step of `JoinSplit` for a string that starts with another
      character. */
  lemma JoinSplitOther(s: string)
    requires s != [] && s[0] != ',' && Join(Split(s[1..])) == s[1..]
    ensures Join(Split(s)) == s
  {
    var rest := Split(s[1..]);
    JoinConsHead(s[0], rest);
    assert s == [s[0]] + s[1..];
  }

  /** Putting a character in front of the first piece puts it in front of
      the joined string. */
  lemma JoinConsHead(c: char, parts: seq<string>)
    requires |parts| >= 1
    ensures Join([[c] + parts[0]] + parts[1..]) == [c] + Join(parts)
  {
    if |parts| == 1 {
      assert [[c] + parts[0]] + parts[1..] == [[c] + parts[0]];
    } else {
      JoinConsHeadLong(c, parts);
    }
  }

  /** `JoinConsHead` for two or more pieces. */
  lemma JoinConsHeadLong(c: char, parts: seq<string>)
    requires |parts| > 1
    ensures Join([[c] + parts[0]] + parts[1..]) == [c] + Join(parts)
  {
    var head := [c] + parts[0];
    var q := [head] + parts[1..];
    assert q[0] == head && q[1..] == parts[1..];
    var tail := Join(parts[1..]);
    assert Join(q) == head + [','] + tail;
    assert Join(parts) == parts[0] + [','] + tail;
    Regroup(c, parts[0], tail);
  }

  /** Concatenation regrouped, spelled out for the solver. */
  lemma Regroup(c: char, x: string, tail: string)
    ensures [c] + x + [','] + tail == [c] + (x + [','] + tail)
  {
  }

  /** Joining comma-free pieces with commas and splitting again gives the
      pieces back. */
  lemma {:induction false} SplitJoin(parts: seq<string>)
    requires |parts| >= 1 && forall i :: 0 <= i < |parts| ==> ',' !in parts[i]
    ensures Split(Join(parts)) == parts
    decreases |parts|
  {
    if |parts| == 1 {
      SplitCommaFree(parts[0]);
    } else {
      SplitJoin(parts[1..]);
      SplitAtComma(parts[0], Join(parts[1..]));
      SplitCommaFree(parts[0]);
      assert [parts[0]] + parts[1..] == parts;
    }
  }

  /** A string without commas is one piece. */
  lemma {:induction false} SplitCommaFree(s: string)
    requires ',' !in s
    ensures Split(s) == [s]
    decreases |s|
  {
    if s != [] {
      assert ',' !in s[1..];
      SplitCommaFree(s[1..]);
      assert s == [s[0]] + s[1..];
    }
  }

  /** Splitting `a,b` splits `a` and `b` separately, in order. */
  lemma {:induction false} SplitAtComma(a: string, b: string)
    ensures Split(a + [','] + b) == Split(a) + Split(b)
    decreases |a|
  {
    var s := a + [','] + b;
    if a == [] {
      assert s[0] == ',' && s[1..] == b;
    } else {
      assert s[0] == a[0] && s[1..] == a[1..] + [','] + b;
      SplitAtComma(a[1..], b);
      var x, y := Split(a[1..]), Split(b);
      if a[0] == ',' {
        AppendAssoc([[]], x, y);
      } else {
        assert (x + y)[0] == x[0] && (x + y)[1..] == x[1..] + y;
        AppendAssoc([[a[0]] + x[0]], x[1..], y);
      }
    }
  }

  /** Sequence concatenation is associative. */
  lemma AppendAssoc<T>(x: seq<T>, y: seq<T>, z: seq<T>)
    ensures x + (y + z) == x + y + z
  {
  }

  /** The list comprehension of `parsed_origins`: every piece stripped, and
      the pieces that are blank after stripping dropped, in order. */
  function Clean(pieces: seq<string>): seq<string>
    decreases |pieces|
  {
    if pieces == [] then []
    else (if Strip(pieces[0]) != [] then [Strip(pieces[0])] else []) + Clean(pieces[1..])
  }

  /** Cleaning a list of pieces cleans each part separately. */
  lemma {:induction false} CleanAppend(a: seq<string>, b: seq<string>)
    ensures Clean(a + b) == Clean(a) + Clean(b)
    decreases |a|
  {
    if a == [] {
      assert a + b == b;
    } else {
      assert (a + b)[0] == a[0] && (a + b)[1..] == a[1..] + b;
      CleanAppend(a[1..], b);
      var x := if Strip(a[0]) != [] then [Strip(a[0])] else [];
      AppendAssoc(x, Clean(a[1..]), Clean(b));
    }
  }

  /** Every origin `Clean` keeps is stripped and not blank, and holds no
      comma when no piece does. */
  lemma {:induction false} CleanElements(pieces: seq<string>)
    requires forall i :: 0 <= i < |pieces| ==> ',' !in pieces[i]
    ensures forall o :: o in Clean(pieces) ==> o != [] && Stripped(o) && ',' !in o
    decreases |pieces|
  {
    if pieces != [] {
      CleanElements(pieces[1..]);
      StripInside(pieces[0]);
    }
  }

  /** `Settings.parsed_origins`. */
  function ParsedOrigins(allowed: string): (r: seq<string>)
    ensures forall o :: o in r ==> o != [] && Stripped(o) && ',' !in o
  {
    if allowed == "*" then ["*"]
    else
      CleanElements(Split(allowed));
      Clean(Split(allowed))
  }

  /** With `ALLOWED_ORIGINS` unset every origin is allowed. */
  lemma DefaultAllowsAll()
    ensures ParsedOrigins(DefaultAllowedOrigins) == ["*"]
  {
  }

  /** The origins of `a,b` are the origins of `a` followed by those of `b`:
      the order of the list is kept. */
  lemma ParsedOriginsAppend(a: string, b: string)
    ensures ParsedOrigins(a + [','] + b) == ParsedOrigins(a) + ParsedOrigins(b)
  {
    assert (a + [','] + b)[|a|] == ',';
    assert a + [','] + b != "*";
    SplitAtComma(a, b);
    CleanAppend(Split(a), Split(b));
    StarIsClean(a);
    StarIsClean(b);
  }

  /** The special case for `*` gives what the general rule gives anyway. */
  lemma StarIsClean(s: string)
    ensures ParsedOrigins(s) == Clean(Split(s))
  {
    if s == "*" {
      SplitCommaFree(s);
      StripStripped(s);
      assert Clean(Split(s)) == [Strip(s)] + Clean([]);
    }
  }

  /** Any non-empty list of origins written out comma-separated, without
      surrounding whitespace or commas in an origin, parses back to itself. */
  lemma ParsedOriginsJoin(origins: seq<string>)
    requires |origins| >= 1
    requires forall i :: 0 <= i < |origins| ==> origins[i] != [] && Stripped(origins[i]) && ',' !in origins[i]
    ensures ParsedOrigins(Join(origins)) == origins
  {
    if Join(origins) != "*" {
      SplitJoin(origins);
      CleanStripped(origins);
    }
  }

  /** Cleaning pieces that are already stripped and not blank keeps them
      all. */
  lemma {:induction false} CleanStripped(pieces: seq<string>)
    requires forall i :: 0 <= i < |pieces| ==> pieces[i] != [] && Stripped(pieces[i])
    ensures Clean(pieces) == pieces
    decreases |pieces|
  {
    if pieces != [] {
      StripStripped(pieces[0]);
      CleanStripped(pieces[1..]);
    }
  }
}
