/**
 * The java.lang.String operations the reader applies to every line:
 * `split(",")`, `trim()`, the quote strip `replaceAll("^\"|\"$", "")`
 * and `equalsIgnoreCase`, written out over `seq<char>`.
 */
module Text {

  /** The pieces of `s` between commas, empty ones included: what splitting
      at every ',' yields before Java discards trailing empty strings. */
  function Pieces(s: string): (r: seq<string>)
    ensures |r| >= 1
  {
    if |s| == 0 then [""]
    else
      var rest := Pieces(s[1..]);
      if s[0] == ',' then [""] + rest
      else [[s[0]] + rest[0]] + rest[1..]
  }

  /** No piece holds a comma. */
  lemma {:induction false} PiecesCommaFree(s: string)
    ensures forall i :: 0 <= i < |Pieces(s)| ==> ',' !in Pieces(s)[i]
  {
    if |s| > 0 {
      PiecesCommaFree(s[1..]);
    }
  }

  /** The inverse of `Pieces`: the pieces glued back with ','. */
  function Join(ps: seq<string>): string
    requires |ps| >= 1
  {
    if |ps| == 1 then ps[0] else ps[0] + "," + Join(ps[1..])
  }

  lemma {:induction false} JoinPieces(s: string)
    ensures Join(Pieces(s)) == s
  {
    if |s| > 0 {
      var rest := Pieces(s[1..]);
      JoinPieces(s[1..]);
      if s[0] == ',' {
        assert Pieces(s) == [""] + rest;
        assert ([""] + rest)[1..] == rest;
      } else {
        JoinConsChar(s[0], rest);
      }
      assert s == [s[0]] + s[1..];
    }
  }

  lemma {:induction false} JoinConsChar(c: char, ps: seq<string>)
    requires |ps| >= 1
    ensures Join([[c] + ps[0]] + ps[1..]) == [c] + Join(ps)
  {
    var qs := [[c] + ps[0]] + ps[1..];
    if |ps| > 1 {
      assert qs[1..] == ps[1..];
    }
  }

  /** Gluing comma-free pieces and cutting again gives the same pieces. */
  lemma {:induction false} PiecesJoin(ps: seq<string>)
    requires |ps| >= 1
    requires forall i :: 0 <= i < |ps| ==> ',' !in ps[i]
    ensures Pieces(Join(ps)) == ps
  {
    if |ps| == 1 {
      PiecesOfCommaFree(ps[0]);
    } else {
      PiecesJoin(ps[1..]);
      var tail := Join(ps[1..]);
      assert Pieces("," + tail) == [""] + Pieces(tail) by {
        assert ("," + tail)[1..] == tail;
      }
      PiecesPrefix(ps[0], "," + tail);
      assert ps[0] + "," + tail == ps[0] + ("," + tail);
      assert ([""] + Pieces(tail))[1..] == ps[1..];
      assert ps[0] + "" == ps[0];
    }
  }

  lemma {:induction false} PiecesOfCommaFree(s: string)
    requires ',' !in s
    ensures Pieces(s) == [s]
  {
    if |s| > 0 {
      PiecesOfCommaFree(s[1..]);
      assert [s[0]] + s[1..] == s;
    }
  }

  lemma {:induction false} PiecesPrefix(a: string, s: string)
    requires ',' !in a
    ensures Pieces(a + s) == [a + Pieces(s)[0]] + Pieces(s)[1..]
  {
    if |a| > 0 {
      PiecesPrefix(a[1..], s);
      assert (a + s)[1..] == a[1..] + s;
      assert (a + s)[0] == a[0];
      assert [a[0]] + (a[1..] + Pieces(s)[0]) == a + Pieces(s)[0];
    } else {
      var ps := Pieces(s);
      assert a + s == s && a + ps[0] == ps[0];
      assert ps == [ps[0]] + ps[1..];
    }
  }

  /** `ps` without its trailing empty strings. */
  function DropTrailingEmpty(ps: seq<string>): (r: seq<string>)
    ensures |r| <= |ps|
  {
    if |ps| == 0 then []
    else if ps[|ps| - 1] == "" then DropTrailingEmpty(ps[..|ps| - 1])
    else ps
  }

  /** What `DropTrailingEmpty` keeps is a prefix ending in a non-empty string,
      and what it drops is all empty. */
  lemma {:induction false} DropTrailingEmptySpec(ps: seq<string>)
    ensures DropTrailingEmpty(ps) <= ps
    ensures |DropTrailingEmpty(ps)| > 0 ==> DropTrailingEmpty(ps)[|DropTrailingEmpty(ps)| - 1] != ""
    ensures forall i :: |DropTrailingEmpty(ps)| <= i < |ps| ==> ps[i] == ""
  {
    if |ps| > 0 && ps[|ps| - 1] == "" {
      DropTrailingEmptySpec(ps[..|ps| - 1]);
    }
  }

  /** Java's `s.split(",")`. Without a comma the whole line is the only field
      (even when empty); otherwise the comma pieces, minus trailing empty ones. */
  function Split(s: string): (r: seq<string>)
    ensures |r| <= |Pieces(s)|
  {
    if ',' !in s then
      PiecesOfCommaFree(s);
      [s]
    else DropTrailingEmpty(Pieces(s))
  }

  /** The fields are the leading comma pieces, comma-free; only empty pieces are
      lost at the end, and a line with a comma never ends in an empty field. */
  lemma SplitSpec(s: string)
    ensures Split(s) <= Pieces(s)
    ensures forall i :: |Split(s)| <= i < |Pieces(s)| ==> Pieces(s)[i] == ""
    ensures forall i :: 0 <= i < |Split(s)| ==> ',' !in Split(s)[i]
    ensures ',' !in s ==> Split(s) == [s]
    ensures ',' in s && |Split(s)| > 0 ==> Split(s)[|Split(s)| - 1] != ""
  {
    PiecesCommaFree(s);
    if ',' in s {
      DropTrailingEmptySpec(Pieces(s));
    } else {
      PiecesOfCommaFree(s);
    }
  }

  /** Index of the first character of `s` above ' '. */
  function TrimStart(s: string): (i: nat)
    ensures i <= |s|
  {
    if |s| == 0 || s[0] > ' ' then 0 else 1 + TrimStart(s[1..])
  }

  /** Everything before `TrimStart(s)` is at or below ' ', and the character
      there is above it. */
  lemma {:induction false} TrimStartSpec(s: string)
    ensures forall k :: 0 <= k < TrimStart(s) ==> s[k] <= ' '
    ensures TrimStart(s) < |s| ==> s[TrimStart(s)] > ' '
  {
    if |s| > 0 && s[0] <= ' ' {
      TrimStartSpec(s[1..]);
    }
  }

  /** One past the last character of `s` above ' ', not going below `lo`. */
  function TrimEnd(s: string, lo: nat): (j: nat)
    requires lo <= |s|
    ensures lo <= j <= |s|
  {
    if |s| == lo || s[|s| - 1] > ' ' then |s| else TrimEnd(s[..|s| - 1], lo)
  }

  /** Everything from `TrimEnd(s, lo)` on is at or below ' ', and the character
      before it, if it is past `lo`, is above it. */
  lemma {:induction false} TrimEndSpec(s: string, lo: nat)
    requires lo <= |s|
    ensures forall k :: TrimEnd(s, lo) <= k < |s| ==> s[k] <= ' '
    ensures TrimEnd(s, lo) > lo ==> s[TrimEnd(s, lo) - 1] > ' '
  {
    if |s| > lo && s[|s| - 1] <= ' ' {
      TrimEndSpec(s[..|s| - 1], lo);
    }
  }

  /** Java's `s.trim()`: drops every character at or below ' ' from both ends. */
  function Trim(s: string): (r: string)
    ensures |r| <= |s|
  {
    var i := TrimStart(s);
    s[i..TrimEnd(s, i)]
  }

  /** `Trim` keeps a middle slice of `s`, cuts only characters at or below ' ',
      and what it keeps begins and ends above ' '. */
  lemma TrimSpec(s: string)
    ensures TrimStart(s) + |Trim(s)| <= |s|
    ensures Trim(s) == s[TrimStart(s)..TrimStart(s) + |Trim(s)|]
    ensures forall k :: 0 <= k < TrimStart(s) ==> s[k] <= ' '
    ensures forall k :: TrimStart(s) + |Trim(s)| <= k < |s| ==> s[k] <= ' '
    ensures Trim(s) != [] ==> Trim(s)[0] > ' ' && Trim(s)[|Trim(s)| - 1] > ' '
  {
    var i := TrimStart(s);
    TrimStartSpec(s);
    TrimEndSpec(s, i);
  }

  /** A string `Trim` leaves alone. */
  predicate IsTrimmed(s: string)
  {
    s == [] || (s[0] > ' ' && s[|s| - 1] > ' ')
  }

  lemma TrimOfTrimmed(s: string)
    requires IsTrimmed(s)
    ensures Trim(s) == s
  {
    TrimSpec(s);
  }

  /** Whitespace (anything at or below ' ') around a trimmed string is all `Trim` removes. */
  lemma {:induction false} TrimPadded(pre: string, x: string, post: string)
    requires forall k :: 0 <= k < |pre| ==> pre[k] <= ' '
    requires forall k :: 0 <= k < |post| ==> post[k] <= ' '
    requires x != [] && IsTrimmed(x)
    ensures Trim(pre + x + post) == x
  {
    var s := pre + x + post;
    TrimSpec(s);
    assert s[|pre|] == x[0];
    assert s[|pre| + |x| - 1] == x[|x| - 1];
    var i := TrimStart(s);
    assert i == |pre|;
    var r := Trim(s);
    var e := i + |r|;
    assert e == |pre| + |x|;
  }

  /** The characters java.util.regex lets `$` stand before at the end of input. */
  predicate IsLineTerminator(c: char)
  {
    c == '\n' || c == '\r' || c == '\U{0085}' || c == '\U{2028}' || c == '\U{2029}'
  }

  /** A '"' at index p that `"$` can match: only the end of input, one final
      line terminator, or a final "\r\n" follows it. */
  predicate EndAnchored(s: string, p: int)
  {
    0 <= p < |s| && s[p] == '"' &&
    (p == |s| - 1 ||
     (p == |s| - 2 && IsLineTerminator(s[|s| - 1])) ||
     (p == |s| - 3 && s[p + 1] == '\r' && s[p + 2] == '\n'))
  }

  /** Where the alternative `"$` of `^"|"$` matches: a '"' at the very end, before
      a final line terminator, or before a final "\r\n"; -1 when it matches nowhere. */
  function EndQuote(s: string): (q: int)
    ensures -1 <= q < |s|
    ensures q >= 0 ==> EndAnchored(s, q)
    ensures q == -1 ==> forall p :: 0 <= p < |s| ==> !EndAnchored(s, p)
    ensures forall p :: EndAnchored(s, p) ==> p == q
    ensures q == |s| - 1 <== |s| >= 1 && s[|s| - 1] == '"'
  {
    var n := |s|;
    if n >= 1 && s[n - 1] == '"' then n - 1
    else if n >= 2 && s[n - 2] == '"' && IsLineTerminator(s[n - 1]) then n - 2
    else if n >= 3 && s[n - 3] == '"' && s[n - 2] == '\r' && s[n - 1] == '\n' then n - 3
    else -1
  }

  /** Java's `s.replaceAll("^\"|\"$", "")`: removes a '"' at index 0 and the '"'
      that `"$` matches, each at most once (a lone '"' is removed once). */
  function StripQuotes(s: string): (r: string)
    ensures |s| - 2 <= |r| <= |s|
  {
    var lead := if |s| > 0 && s[0] == '"' then 1 else 0;
    var q := EndQuote(s);
    if q >= lead then s[lead..q] + s[q + 1..] else s[lead..]
  }

  /** A string without quotes, or with none where `^"|"$` can match, is left
      alone, and a string quoted at both ends loses exactly those two quotes. */
  lemma StripQuotesSpec(s: string)
    ensures '"' !in s ==> StripQuotes(s) == s
    ensures |s| >= 2 && s[0] == '"' && s[|s| - 1] == '"' ==> StripQuotes(s) == s[1..|s| - 1]
    ensures (s == [] || s[0] != '"') && EndQuote(s) < 0 ==> StripQuotes(s) == s
    ensures |s| >= 1 && s[0] == '"' && EndQuote(s) < 1 ==> StripQuotes(s) == s[1..]
    ensures (s == [] || s[0] != '"') && EndQuote(s) >= 0 ==>
      StripQuotes(s) == s[..EndQuote(s)] + s[EndQuote(s) + 1..]
    ensures |s| >= 1 && s[0] != '"' && s[|s| - 1] == '"' ==> StripQuotes(s) == s[..|s| - 1]
  {
  }

  /** One quote at either end alone is removed: `"ES` and `ES"` both read as `ES`. */
  lemma OneSidedQuotes()
    ensures StripQuotes("\"ES") == "ES"
    ensures StripQuotes("ES\"") == "ES"
  {
    StripQuotesSpec("\"ES");
    StripQuotesSpec("ES\"");
  }

  /** The field normalisation of every read: `trim()` then the quote strip. */
  function Normalize(s: string): string
  {
    StripQuotes(Trim(s))
  }

  /** One layer of quotes, surrounded by any whitespace, comes off whole:
      `  "ES" ` reads as `ES`, and `""ES""` as `"ES"`. */
  lemma QuotedField(pre: string, x: string, post: string)
    requires forall k :: 0 <= k < |pre| ==> pre[k] <= ' '
    requires forall k :: 0 <= k < |post| ==> post[k] <= ' '
    ensures Normalize(pre + "\"" + x + "\"" + post) == x
  {
    var q := "\"" + x + "\"";
    assert pre + "\"" + x + "\"" + post == pre + q + post;
    TrimPadded(pre, q, post);
    StripQuotesSpec(q);
    assert q[1..|q| - 1] == x;
  }

  /** A field with no quote character is only trimmed. */
  lemma UnquotedField(s: string)
    requires '"' !in s
    ensures Normalize(s) == Trim(s)
  {
    var i := TrimStart(s);
    var t := Trim(s);
    TrimSpec(s);
    forall k | 0 <= k < |t| ensures t[k] != '"' {
      assert t[k] == s[i + k];
    }
    assert '"' !in t;
    StripQuotesSpec(t);
  }

  /** ASCII case folding: 'A'..'Z' to 'a'..'z'. */
  function FoldCase(c: char): char
  {
    if 'A' <= c <= 'Z' then (c as int + 32) as char else c
  }

  /** `a.equalsIgnoreCase(b)` for ASCII letters. */
  predicate EqualsIgnoreCase(a: string, b: string)
  {
    |a| == |b| && forall i :: 0 <= i < |a| ==> FoldCase(a[i]) == FoldCase(b[i])
  }
}
