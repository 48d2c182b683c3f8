/**
 * The `-`-separated date strings of the document client: `split('-')`,
 * `join('-')`, the day/month/year tokeniser `parseDate`, and the
 * `split('-').reverse().join('-')` swap that converts between the date
 * picker's `YYYY-MM-DD` and the stored `DD-MM-YYYY`.
 */
module DateText {
  import opened Wrappers

  const SEPARATOR: char := '-'

  /** Number of separators in `s`. */
  function SeparatorCount(s: string): nat
  {
    if s == [] then 0
    else (if s[0] == SEPARATOR then 1 else 0) + SeparatorCount(s[1..])
  }

  /** No piece holds a separator. */
  predicate SeparatorFree(parts: seq<string>)
  {
    forall i :: 0 <= i < |parts| ==> SEPARATOR !in parts[i]
  }

  /**
   * `s.split('-')`: the separator-free pieces between the separators of `s`,
   * in order. There is always one more piece than there are separators, so
   * the empty string splits into one empty piece.
   */
  function Split(s: string): (parts: seq<string>)
    ensures parts != []
  {
    if s == [] then [""]
    else
      var rest := Split(s[1..]);
      if s[0] == SEPARATOR then [""] + rest
      else [[s[0]] + rest[0]] + rest[1..]
  }

  /** There is one more piece than there are separators, and no piece holds one. */
  lemma {:induction false} SplitPieces(s: string)
    ensures |Split(s)| == SeparatorCount(s) + 1
    ensures SeparatorFree(Split(s))
    decreases |s|
  {
    if s != [] {
      SplitPieces(s[1..]);
      var rest := Split(s[1..]);
      if s[0] != SEPARATOR {
        var parts := Split(s);
        forall i | 0 <= i < |parts| ensures SEPARATOR !in parts[i] {
          if i > 0 {
            assert parts[i] == rest[i];
          }
        }
      }
    }
  }

  /**
   * `parts.join('-')`: the pieces with one separator between neighbours, so
   * separator-free pieces give exactly one separator fewer than pieces.
   */
  function Join(parts: seq<string>): (s: string)
    ensures parts != [] && SeparatorFree(parts) ==> SeparatorCount(s) == |parts| - 1
  {
    if |parts| == 0 then ""
    else if |parts| == 1 then SeparatorCountFree(parts[0]); parts[0]
    else
      var rest := Join(parts[1..]);
      SeparatorCountFree(parts[0]);
      SeparatorCountAppend(parts[0] + [SEPARATOR], rest);
      SeparatorCountAppend(parts[0], [SEPARATOR]);
      parts[0] + [SEPARATOR] + rest
  }

  /** Three pieces joined by two separators count the pieces' separators plus two. */
  lemma {:induction false} SeparatorCountThree(a: string, b: string, c: string)
    ensures SeparatorCount(a + [SEPARATOR] + b + [SEPARATOR] + c) ==
      SeparatorCount(a) + SeparatorCount(b) + SeparatorCount(c) + 2
  {
    var ab := a + [SEPARATOR] + b;
    SeparatorCountAppend(ab + [SEPARATOR], c);
    SeparatorCountAppend(ab, [SEPARATOR]);
    SeparatorCountAppend(a + [SEPARATOR], b);
    SeparatorCountAppend(a, [SEPARATOR]);
    assert SeparatorCount([SEPARATOR]) == 1;
  }

  /** A string without separators counts none. */
  lemma {:induction false} SeparatorCountFree(a: string)
    ensures SEPARATOR !in a ==> SeparatorCount(a) == 0
  {
    if a != [] && SEPARATOR !in a {
      assert SEPARATOR !in a[1..];
      SeparatorCountFree(a[1..]);
    }
  }

  /** Separator counts add up over concatenation. */
  lemma {:induction false} SeparatorCountAppend(a: string, b: string)
    ensures SeparatorCount(a + b) == SeparatorCount(a) + SeparatorCount(b)
  {
    if a == [] {
      assert a + b == b;
    } else {
      assert (a + b)[0] == a[0];
      assert (a + b)[1..] == a[1..] + b;
      SeparatorCountAppend(a[1..], b);
    }
  }

  /** `parts.reverse()`, as a value. */
  function Reverse(parts: seq<string>): (r: seq<string>)
    ensures |r| == |parts|
    ensures forall k :: 0 <= k < |r| ==> r[k] == parts[|parts| - 1 - k]
  {
    if parts == [] then [] else Reverse(parts[1..]) + [parts[0]]
  }

  /** `join` of a head and a non-empty tail puts one separator between them. */
  lemma {:induction false} JoinCons(a: string, tail: seq<string>)
    requires tail != []
    ensures Join([a] + tail) == a + [SEPARATOR] + Join(tail)
  {
    assert ([a] + tail)[1..] == tail;
  }

  /** `join` of three pieces spells them with two separators. */
  lemma {:induction false} JoinThree(a: string, b: string, c: string)
    ensures Join([a, b, c]) == a + [SEPARATOR] + b + [SEPARATOR] + c
  {
    JoinCons(a, [b, c]);
    JoinCons(b, [c]);
    assert [a] + [b, c] == [a, b, c];
    assert [b] + [c] == [b, c];
  }

  /** A string without separators is a single piece. */
  lemma {:induction false} SplitSeparatorFree(a: string)
    requires SEPARATOR !in a
    ensures Split(a) == [a]
  {
    if a != [] {
      assert SEPARATOR !in a[1..];
      SplitSeparatorFree(a[1..]);
      assert [a[0]] + a[1..] == a;
    }
  }

  /** One step of `Split` on a string that starts with `c`. */
  lemma {:induction false} SplitStep(c: char, x: string)
    ensures Split([c] + x) ==
      if c == SEPARATOR then [""] + Split(x) else [[c] + Split(x)[0]] + Split(x)[1..]
  {
    assert ([c] + x)[1..] == x;
  }

  /** Extending the first piece commutes with appending more pieces. */
  lemma {:induction false} ExtendFirst(c: char, parts: seq<string>, more: seq<string>)
    requires parts != []
    ensures [[c] + (parts + more)[0]] + (parts + more)[1..] == ([[c] + parts[0]] + parts[1..]) + more
  {
    assert (parts + more)[0] == parts[0];
    assert (parts + more)[1..] == parts[1..] + more;
  }

  /** Splitting around one separator splits each side on its own. */
  lemma {:induction false} SplitAround(a: string, b: string)
    ensures Split(a + [SEPARATOR] + b) == Split(a) + Split(b)
    decreases |a|
  {
    if a == [] {
      assert a + [SEPARATOR] + b == [SEPARATOR] + b;
      SplitStep(SEPARATOR, b);
    } else {
      var c, a' := a[0], a[1..];
      var x := a' + [SEPARATOR] + b;
      assert a + [SEPARATOR] + b == [c] + x;
      assert a == [c] + a';
      SplitStep(c, x);
      SplitStep(c, a');
      SplitAround(a', b);
      if c != SEPARATOR {
        ExtendFirst(c, Split(a'), Split(b));
      }
    }
  }

  /** Prefixing a character to the first piece prefixes it to the joined string. */
  lemma {:induction false} JoinPrefixFirst(c: char, parts: seq<string>)
    requires parts != []
    ensures Join([[c] + parts[0]] + parts[1..]) == [c] + Join(parts)
  {
    var first := [c] + parts[0];
    var tail := parts[1..];
    if tail == [] {
      assert [first] + tail == [first];
    } else {
      var joined := Join(tail);
      JoinCons(first, tail);
      JoinCons(parts[0], tail);
      assert [parts[0]] + tail == parts;
      assert first + [SEPARATOR] + joined == [c] + (parts[0] + [SEPARATOR] + joined);
    }
  }

  /** `join` undoes `split`. */
  lemma {:induction false} JoinSplit(s: string)
    ensures Join(Split(s)) == s
    decreases |s|
  {
    if s != [] {
      var rest := Split(s[1..]);
      JoinSplit(s[1..]);
      assert [s[0]] + s[1..] == s;
      if s[0] == SEPARATOR {
        JoinCons("", rest);
      } else {
        JoinPrefixFirst(s[0], rest);
      }
    }
  }

  /** `split` undoes `join` of separator-free pieces. */
  lemma {:induction false} SplitJoin(parts: seq<string>)
    requires parts != [] && SeparatorFree(parts)
    ensures Split(Join(parts)) == parts
  {
    SplitSeparatorFree(parts[0]);
    if |parts| > 1 {
      SplitJoin(parts[1..]);
      SplitAround(parts[0], Join(parts[1..]));
      assert [parts[0]] + parts[1..] == parts;
    }
  }

  /**
   * `s.split('-').reverse().join('-')`: turns `YYYY-MM-DD` into `DD-MM-YYYY`
   * when saving an edit, and back when a stored date is displayed. It keeps
   * the number of separators.
   */
  function Swap(s: string): (swapped: string)
    ensures SeparatorCount(swapped) == SeparatorCount(s)
  {
    var r := Reverse(Split(s));
    SplitPieces(s);
    ReversePiecesFree(Split(s));
    Join(r)
  }

  /** Reversing keeps the pieces separator-free. */
  lemma {:induction false} ReversePiecesFree(parts: seq<string>)
    requires SeparatorFree(parts)
    ensures SeparatorFree(Reverse(parts))
  {
    var r := Reverse(parts);
    forall k | 0 <= k < |r| ensures SEPARATOR !in r[k] {
      assert r[k] == parts[|r| - 1 - k];
    }
  }

  /** The swapped string has the same pieces in reverse order. */
  lemma {:induction false} SwapReversesPieces(s: string)
    ensures Split(Swap(s)) == Reverse(Split(s))
  {
    SplitPieces(s);
    ReversePiecesFree(Split(s));
    SplitJoin(Reverse(Split(s)));
  }

  /** The swap is an involution: swapping twice gives back the original. */
  lemma {:induction false} SwapInvolution(s: string)
    ensures Swap(Swap(s)) == s
  {
    SwapReversesPieces(s);
    var parts := Split(s);
    assert Reverse(Reverse(parts)) == parts;
    JoinSplit(s);
  }

  /** The three leading tokens `parseDate` destructures. */
  datatype DateTokens = DateTokens(day: string, month: string, year: string)

  /** Every token is non-empty (truthy) and holds no separator. */
  predicate WellFormed(t: DateTokens)
  {
    && t.day != [] && t.month != [] && t.year != []
    && SEPARATOR !in t.day && SEPARATOR !in t.month && SEPARATOR !in t.year
  }

  /** The stored `DD-MM-YYYY` spelling of the tokens. */
  function Written(t: DateTokens): string
  {
    t.day + [SEPARATOR] + t.month + [SEPARATOR] + t.year
  }

  /** The text `${year}-${month}-${day}` that parseDate hands to `Date`. */
  function DateInput(t: DateTokens): (text: string)
    ensures WellFormed(t) ==> SeparatorCount(text) == 2
  {
    SeparatorCountFree(t.year);
    SeparatorCountFree(t.month);
    SeparatorCountFree(t.day);
    SeparatorCountThree(t.year, t.month, t.day);
    t.year + [SEPARATOR] + t.month + [SEPARATOR] + t.day
  }

  /**
   * parseDate without its `Date` construction: the day, month and year
   * tokens, or absent when one of the first three pieces is missing or empty.
   */
  function ParseDate(s: string): (r: Option<DateTokens>)
    ensures r.Some? ==> WellFormed(r.value)
    ensures r.Some? ==> SeparatorCount(s) >= 2
  {
    SplitPieces(s);
    var parts := Split(s);
    if |parts| >= 3 && parts[0] != [] && parts[1] != [] && parts[2] != []
    then Some(DateTokens(parts[0], parts[1], parts[2]))
    else None
  }

  /** Joining three or more pieces spells the first three, then the rest if any. */
  lemma {:induction false} JoinFirstThree(parts: seq<string>)
    requires |parts| >= 3
    ensures var w := parts[0] + [SEPARATOR] + parts[1] + [SEPARATOR] + parts[2];
      Join(parts) == if |parts| == 3 then w else w + [SEPARATOR] + Join(parts[3..])
  {
    JoinCons(parts[0], parts[1..]);
    assert [parts[0]] + parts[1..] == parts;
    JoinCons(parts[1], parts[2..]);
    assert [parts[1]] + parts[2..] == parts[1..];
    if |parts| > 3 {
      JoinCons(parts[2], parts[3..]);
      assert [parts[2]] + parts[3..] == parts[2..];
    }
  }

  /** A parsed string starts with its tokens' spelling, ended or followed by a separator. */
  lemma {:induction false} ParsedHasShape(s: string, t: DateTokens)
    requires ParseDate(s) == Some(t)
    ensures Written(t) <= s && (|s| == |Written(t)| || s[|Written(t)|] == SEPARATOR)
  {
    var parts := Split(s);
    JoinSplit(s);
    JoinFirstThree(parts);
    if |parts| > 3 {
      var rest := Join(parts[3..]);
      assert s == Written(t) + ([SEPARATOR] + rest);
    }
  }

  /** A `DD-MM-YYYY` spelling splits into its three tokens. */
  lemma {:induction false} SplitWritten(t: DateTokens)
    requires WellFormed(t)
    ensures Split(Written(t)) == [t.day, t.month, t.year]
  {
    SplitSeparatorFree(t.day);
    SplitSeparatorFree(t.month);
    SplitSeparatorFree(t.year);
    var monthYear := t.month + [SEPARATOR] + t.year;
    SplitAround(t.month, t.year);
    SplitAround(t.day, monthYear);
    assert Written(t) == t.day + [SEPARATOR] + monthYear;
  }

  /** A string of that shape parses to those tokens. */
  lemma {:induction false} ShapeParses(s: string, t: DateTokens)
    requires WellFormed(t) && Written(t) <= s
    requires |s| == |Written(t)| || s[|Written(t)|] == SEPARATOR
    ensures ParseDate(s) == Some(t)
  {
    var w := Written(t);
    SplitWritten(t);
    if |s| == |w| {
      assert s == w;
    } else {
      var u := s[|w| + 1..];
      assert s == w + [SEPARATOR] + u;
      SplitAround(w, u);
    }
    var parts := Split(s);
    assert parts[..3] == [t.day, t.month, t.year];
  }

  /**
   * What parseDate accepts, character by character: `s` parses to `t`
   * exactly when `s` starts with `t`'s `DD-MM-YYYY` spelling and that
   * spelling ends the string or is followed by a separator.
   */
  lemma {:induction false} ParseDateShape(s: string, t: DateTokens)
    ensures ParseDate(s) == Some(t) <==>
      && WellFormed(t)
      && Written(t) <= s
      && (|s| == |Written(t)| || s[|Written(t)|] == SEPARATOR)
  {
    if ParseDate(s) == Some(t) {
      ParsedHasShape(s, t);
    }
    if WellFormed(t) && Written(t) <= s && (|s| == |Written(t)| || s[|Written(t)|] == SEPARATOR) {
      ShapeParses(s, t);
    }
  }

  /** Tokens after the third are ignored. */
  lemma {:induction false} ParseDateIgnoresExtraTokens(s: string, u: string)
    requires SeparatorCount(s) >= 2
    ensures ParseDate(s + [SEPARATOR] + u) == ParseDate(s)
  {
    SplitPieces(s);
    SplitAround(s, u);
  }

  /** A date with exactly two separators that parses is its tokens' spelling. */
  lemma {:induction false} ThreeTokenDate(s: string)
    requires ParseDate(s).Some? && SeparatorCount(s) == 2
    ensures s == Written(ParseDate(s).value)
  {
    SplitPieces(s);
    var parts := Split(s);
    assert parts == [parts[0], parts[1], parts[2]];
    JoinSplit(s);
    JoinThree(parts[0], parts[1], parts[2]);
  }

  /**
   * The swap maps the `DD-MM-YYYY` spelling to the text parseDate hands to
   * `Date`, and a picker's `YYYY-MM-DD` value to the spelling that parses
   * back to the same tokens.
   */
  lemma {:induction false} SwapWrittenDate(t: DateTokens)
    requires WellFormed(t)
    ensures Swap(Written(t)) == DateInput(t)
    ensures Swap(DateInput(t)) == Written(t)
    ensures ParseDate(Swap(DateInput(t))) == Some(t)
  {
    var parts := [t.day, t.month, t.year];
    JoinThree(t.day, t.month, t.year);
    SplitJoin(parts);
    var r := Reverse(parts);
    assert r == [t.year, t.month, t.day];
    JoinThree(t.year, t.month, t.day);
    SwapInvolution(Written(t));
    ParseDateShape(Written(t), t);
  }
}
