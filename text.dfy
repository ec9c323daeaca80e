/**
 * String operations the statement builders and the script runner rely on:
 * splitting on a separator character and joining back, the `$$` escape for
 * a statement terminator, stripping a trailing separator, and the
 * case-insensitive search for DDL keywords.
 */
module Text {

  /** Number of occurrences of `c` in `s`. */
  function Count(s: string, c: char): nat
  {
    if s == [] then 0 else (if s[0] == c then 1 else 0) + Count(s[1..], c)
  }

  /** `s.split(c)` for a one-character separator. */
  function Split(s: string, c: char): (parts: seq<string>)
    ensures |parts| >= 1
  {
    if s == [] then [""]
    else
      var rest := Split(s[1..], c);
      if s[0] == c then [""] + rest else [[s[0]] + rest[0]] + rest[1..]
  }

  /** `sep.join(parts)`. */
  function Join(parts: seq<string>, sep: string): string
  {
    if parts == [] then ""
    else if |parts| == 1 then parts[0]
    else parts[0] + sep + Join(parts[1..], sep)
  }

  /** Splitting yields one piece more than there are separators. */
  lemma {:induction false} SplitCount(s: string, c: char)
    ensures |Split(s, c)| == Count(s, c) + 1
  {
    if s != [] {
      SplitCount(s[1..], c);
    }
  }

  /** No piece of a split contains the separator. */
  lemma {:induction false} SplitPiecesFree(s: string, c: char)
    ensures forall p :: p in Split(s, c) ==> c !in p
  {
    if s != [] {
      SplitPiecesFree(s[1..], c);
      var rest := Split(s[1..], c);
      if s[0] != c {
        assert c !in [s[0]] + rest[0] by { assert rest[0] in rest; }
        assert forall p :: p in rest[1..] ==> p in rest;
      }
    }
  }

  /** Joining the pieces of a split with the separator gives back the text. */
  lemma {:induction false} JoinSplit(s: string, c: char)
    ensures Join(Split(s, c), [c]) == s
  {
    if s != [] {
      var rest := Split(s[1..], c);
      JoinSplit(s[1..], c);
      if s[0] == c {
        assert Split(s, c) == [""] + rest;
      } else {
        var parts := [[s[0]] + rest[0]] + rest[1..];
        if |rest| == 1 {
          assert Join(parts, [c]) == [s[0]] + rest[0];
        } else {
          assert parts[1..] == rest[1..];
          assert Join(rest, [c]) == rest[0] + [c] + Join(rest[1..], [c]);
        }
      }
    }
  }

  /** Splitting a joined list of separator-free pieces gives the pieces back. */
  lemma {:induction false} SplitJoin(parts: seq<string>, c: char)
    requires |parts| >= 1
    requires forall p :: p in parts ==> c !in p
    ensures Split(Join(parts, [c]), c) == parts
  {
    if |parts| == 1 {
      SplitFree(parts[0], c);
    } else {
      assert parts[1..][0] in parts;
      assert forall p :: p in parts[1..] ==> p in parts;
      SplitJoin(parts[1..], c);
      SplitPrefix(parts[0], c, Join(parts[1..], [c]));
      assert Join(parts, [c]) == parts[0] + ([c] + Join(parts[1..], [c]));
    }
  }

  lemma {:induction false} SplitFree(s: string, c: char)
    requires c !in s
    ensures Split(s, c) == [s]
  {
    if s != [] {
      assert s[0] != c;
      SplitFree(s[1..], c);
      assert [s[0]] + s[1..] == s;
    }
  }

  lemma {:induction false} SplitPrefix(w: string, c: char, rest: string)
    requires c !in w
    ensures Split(w + ([c] + rest), c) == [w] + Split(rest, c)
  {
    if w == [] {
      assert w + ([c] + rest) == [c] + rest;
      assert ([c] + rest)[1..] == rest;
    } else {
      assert (w + ([c] + rest))[1..] == w[1..] + ([c] + rest);
      SplitPrefix(w[1..], c, rest);
      assert [w[0]] + w[1..] == w;
    }
  }

  /** `s.replace('$$', ';')`: a scanned, non-overlapping, left-to-right replacement. */
  function Unescape(s: string): string
  {
    if |s| >= 2 && s[0] == '$' && s[1] == '$' then ";" + Unescape(s[2..])
    else if s == [] then ""
    else [s[0]] + Unescape(s[1..])
  }

  /** How a script writes a `;` that belongs inside one statement. */
  function Escape(s: string): (e: string)
    ensures ';' !in e
  {
    if s == [] then ""
    else (if s[0] == ';' then "$$" else [s[0]]) + Escape(s[1..])
  }

  /** Unescaping undoes escaping for statement text that has no `$` of its own. */
  lemma {:induction false} UnescapeEscape(s: string)
    requires '$' !in s
    ensures Unescape(Escape(s)) == s
  {
    if s != [] {
      UnescapeEscape(s[1..]);
      var tail := Escape(s[1..]);
      if s[0] == ';' {
        assert Escape(s) == "$$" + tail;
        assert ("$$" + tail)[2..] == tail;
      } else {
        assert Escape(s) == [s[0]] + tail;
        assert ([s[0]] + tail)[1..] == tail;
      }
    }
  }

  /** `s.rstrip(chars)`. */
  function RStrip(s: string, chars: set<char>): (r: string)
    ensures |r| <= |s| && r == s[..|r|]
    ensures r == [] || r[|r| - 1] !in chars
    ensures forall i :: |r| <= i < |s| ==> s[i] in chars
  {
    if s != [] && s[|s| - 1] in chars then RStrip(s[..|s| - 1], chars) else s
  }

  /** Each item followed by the separator, as a builder that appends `item + sep` produces. */
  function Terminated(items: seq<string>, sep: string): string
  {
    if items == [] then "" else items[0] + sep + Terminated(items[1..], sep)
  }

  lemma {:induction false} TerminatedJoin(items: seq<string>, sep: string)
    requires items != []
    ensures Terminated(items, sep) == Join(items, sep) + sep
  {
    if |items| > 1 {
      TerminatedJoin(items[1..], sep);
    }
  }

  /** A builder that appends `item + sep` one item at a time extends the terminated list. */
  lemma {:induction false} TerminatedSnoc(items: seq<string>, sep: string, j: int)
    requires 0 <= j < |items|
    ensures Terminated(items[..j + 1], sep) == Terminated(items[..j], sep) + items[j] + sep
  {
    if j > 0 {
      assert items[..j + 1][1..] == items[1..][..j];
      assert items[..j][1..] == items[1..][..j - 1];
      TerminatedSnoc(items[1..], sep, j - 1);
    } else {
      assert items[..1][1..] == [];
    }
  }

  /**
   * Stripping the separator characters off the terminated list gives the
   * joined list exactly when the last item does not itself end in one of
   * those characters.
   */
  lemma {:induction false} RStripTerminated(items: seq<string>, prefix: string, sep: string, chars: set<char>)
    requires items != []
    requires forall i :: 0 <= i < |sep| ==> sep[i] in chars
    requires items[|items| - 1] != [] && Last(items[|items| - 1]) !in chars
    ensures RStrip(prefix + Terminated(items, sep), chars) == prefix + Join(items, sep)
  {
    TerminatedJoin(items, sep);
    JoinEndsWithLast(items, sep);
    var body := prefix + Join(items, sep);
    assert prefix + Terminated(items, sep) == body + sep;
    RStripSuffix(body, sep, chars);
  }

  function Last(s: string): char
    requires s != []
  {
    s[|s| - 1]
  }

  lemma {:induction false} JoinEndsWithLast(items: seq<string>, sep: string)
    requires items != [] && items[|items| - 1] != []
    ensures Join(items, sep) != [] && Last(Join(items, sep)) == Last(items[|items| - 1])
  {
    if |items| > 1 {
      assert items[1..][|items[1..]| - 1] == items[|items| - 1];
      JoinEndsWithLast(items[1..], sep);
    }
  }

  lemma {:induction false} RStripSuffix(body: string, suffix: string, chars: set<char>)
    requires body != [] && Last(body) !in chars
    requires forall i :: 0 <= i < |suffix| ==> suffix[i] in chars
    ensures RStrip(body + suffix, chars) == body
    decreases |suffix|
  {
    if suffix == [] {
      assert body + suffix == body;
    } else {
      var shorter := suffix[..|suffix| - 1];
      assert (body + suffix)[..|body + suffix| - 1] == body + shorter;
      RStripSuffix(body, shorter, chars);
    }
  }

  /** ASCII lower-casing, the part of case folding the DDL keywords need. */
  function Lower(c: char): char
  {
    if 'A' <= c <= 'Z' then (c as int + 32) as char else c
  }

  /** `word` (lower case) occurs at position `i` of `s`, ignoring case. */
  predicate MatchesAt(s: string, i: int, word: string)
  {
    0 <= i && i + |word| <= |s| && forall j :: 0 <= j < |word| ==> Lower(s[i + j]) == word[j]
  }

  /** Case-insensitive search for `word` in `s`, scanning from position `from`. */
  function FindFrom(s: string, word: string, from: nat): (found: bool)
    ensures found <==> exists i :: from <= i && MatchesAt(s, i, word)
    decreases |s| - from
  {
    if from + |word| > |s| then false
    else if MatchesAt(s, from, word) then true
    else FindFrom(s, word, from + 1)
  }

  /** `re.findall(r'DROP|CREATE', s, re.IGNORECASE)` is non-empty. */
  function ContainsDropOrCreate(s: string): (found: bool)
    ensures found <==> exists i :: MatchesAt(s, i, "drop") || MatchesAt(s, i, "create")
  {
    FindFrom(s, "drop", 0) || FindFrom(s, "create", 0)
  }

  /** `[x] * n`. */
  function Repeat(x: string, n: nat): (r: seq<string>)
    ensures |r| == n && forall i :: 0 <= i < n ==> r[i] == x
  {
    if n == 0 then [] else [x] + Repeat(x, n - 1)
  }
}
