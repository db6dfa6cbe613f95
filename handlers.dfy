// Text helpers of the Telegram bot's message handlers: HTML escaping of
// titles, removal of HTML tags from page content, and splitting of a reply
// into chunks that fit the Telegram message-size limit.

module Handlers {

  datatype Option<T> = None | Some(value: T)

  /** Telegram's upper bound on the length of one message. */
  const MaxMessageLength: nat := 4096

  // ---------------------------------------------------------------------
  // Small sequence helpers
  // ---------------------------------------------------------------------

  /** Number of occurrences of `c` in `s`. */
  function Count(s: string, c: char): nat
  {
    if s == [] then 0 else (if s[0] == c then 1 else 0) + Count(s[1..], c)
  }

  /** `n` newline characters. */
  function Newlines(n: nat): (r: string)
    ensures |r| == n && forall k :: 0 <= k < n ==> r[k] == '\n'
  {
    seq(n, _ => '\n')
  }

  /** `s` with every newline character deleted. */
  function RemoveNewlines(s: string): string
  {
    if s == [] then []
    else if s[0] == '\n' then RemoveNewlines(s[1..])
    else [s[0]] + RemoveNewlines(s[1..])
  }

  lemma AppendAssociative<T>(a: seq<T>, b: seq<T>, c: seq<T>)
    ensures a + (b + c) == (a + b) + c
  {
  }

  /** `a` can be obtained from `s` by deleting characters. */
  predicate IsSubsequence(a: string, s: string)
    decreases |s|
  {
    a == [] ||
    (s != [] && ((a[0] == s[0] && IsSubsequence(a[1..], s[1..])) || IsSubsequence(a, s[1..])))
  }

  lemma {:induction false} SubsequenceLength(a: string, s: string)
    requires IsSubsequence(a, s)
    ensures |a| <= |s|
    ensures forall x :: x in a ==> x in s
    decreases |s|
  {
    if a != [] {
      if a[0] == s[0] && IsSubsequence(a[1..], s[1..]) {
        SubsequenceLength(a[1..], s[1..]);
        assert a == [a[0]] + a[1..];
      } else {
        SubsequenceLength(a, s[1..]);
      }
      assert s == [s[0]] + s[1..];
    }
  }

  // ---------------------------------------------------------------------
  // _escape_html: replace &, < and > by their entities, & first
  // ---------------------------------------------------------------------

  /** `str.replace` with a one-character pattern: every occurrence of `c`
      in `s` becomes `rep`, everything else is copied. */
  function Replace(s: string, c: char, rep: string): (r: string)
    ensures forall d :: d in r ==> (d in s && d != c) || d in rep
    ensures c !in s ==> r == s
  {
    if s == [] then []
    else (if s[0] == c then rep else [s[0]]) + Replace(s[1..], c, rep)
  }

  lemma {:induction false} ReplaceAppend(a: string, b: string, c: char, rep: string)
    ensures Replace(a + b, c, rep) == Replace(a, c, rep) + Replace(b, c, rep)
  {
    if a == [] {
      assert a + b == b;
    } else {
      assert (a + b)[0] == a[0];
      assert (a + b)[1..] == a[1..] + b;
      ReplaceAppend(a[1..], b, c, rep);
    }
  }

  /** The handler's escaping, as the three chained replacements it performs. */
  function EscapeHtml(s: string): (r: string)
    ensures '<' !in r && '>' !in r
    ensures '&' !in s && '<' !in s && '>' !in s ==> r == s
  {
    Replace(Replace(Replace(s, '&', "&amp;"), '<', "&lt;"), '>', "&gt;")
  }

  /** Escape of one character. */
  function EscapeChar(ch: char): string
  {
    if ch == '&' then "&amp;"
    else if ch == '<' then "&lt;"
    else if ch == '>' then "&gt;"
    else [ch]
  }

  /** Reference definition: escaping character by character. */
  function EscapeEach(s: string): string
  {
    if s == [] then [] else EscapeChar(s[0]) + EscapeEach(s[1..])
  }

  lemma EscapeHtmlAppend(a: string, b: string)
    ensures EscapeHtml(a + b) == EscapeHtml(a) + EscapeHtml(b)
  {
    ReplaceAppend(a, b, '&', "&amp;");
    ReplaceAppend(Replace(a, '&', "&amp;"), Replace(b, '&', "&amp;"), '<', "&lt;");
    ReplaceAppend(Replace(Replace(a, '&', "&amp;"), '<', "&lt;"),
                  Replace(Replace(b, '&', "&amp;"), '<', "&lt;"), '>', "&gt;");
  }

  lemma EscapeHtmlChar(ch: char)
    ensures EscapeHtml([ch]) == EscapeChar(ch)
  {
    assert [ch][1..] == [];
    var amp := "&amp;";
    var lt := "&lt;";
    var gt := "&gt;";
    assert '<' !in amp && '>' !in amp && '>' !in lt;
  }

  /** Because `&` is replaced first, the chained replacements never touch
      the entities inserted by an earlier step: the chain is a per-character map. */
  lemma {:induction false} EscapeHtmlIsPerCharacter(s: string)
    ensures EscapeHtml(s) == EscapeEach(s)
  {
    if s != [] {
      assert s == [s[0]] + s[1..];
      EscapeHtmlAppend([s[0]], s[1..]);
      EscapeHtmlChar(s[0]);
      EscapeHtmlIsPerCharacter(s[1..]);
    }
  }

  /** Decoding of `&amp;`, `&lt;` and `&gt;`, scanning left to right. */
  function Unescape(s: string): string
  {
    if |s| >= 5 && s[..5] == "&amp;" then ['&'] + Unescape(s[5..])
    else if |s| >= 4 && s[..4] == "&lt;" then ['<'] + Unescape(s[4..])
    else if |s| >= 4 && s[..4] == "&gt;" then ['>'] + Unescape(s[4..])
    else if s == [] then []
    else [s[0]] + Unescape(s[1..])
  }

  /** Decoding reads the escape of one character back as that character. */
  lemma UnescapeEscapeChar(ch: char, rest: string)
    ensures Unescape(EscapeChar(ch) + rest) == [ch] + Unescape(rest)
  {
    var e := EscapeChar(ch);
    var t := e + rest;
    assert t[..|e|] == e && t[|e|..] == rest;
    if ch == '<' {
      assert t[1] == 'l';
    } else if ch == '>' {
      assert t[1] == 'g';
    } else if ch != '&' {
      assert t[0] == ch;
      assert |t| >= 5 ==> t[..5][0] == ch;
      assert |t| >= 4 ==> t[..4][0] == ch;
    }
  }

  lemma {:induction false} UnescapeEscapeEach(s: string)
    ensures Unescape(EscapeEach(s)) == s
  {
    if s != [] {
      UnescapeEscapeChar(s[0], EscapeEach(s[1..]));
      UnescapeEscapeEach(s[1..]);
      assert s == [s[0]] + s[1..];
    }
  }

  /** Round trip: left-to-right decoding recovers the escaped text. */
  lemma EscapeHtmlRoundTrip(s: string)
    ensures Unescape(EscapeHtml(s)) == s
  {
    EscapeHtmlIsPerCharacter(s);
    UnescapeEscapeEach(s);
  }

  lemma {:induction false} EscapeEachLength(s: string)
    ensures |EscapeEach(s)| == |s| + 4 * Count(s, '&') + 3 * Count(s, '<') + 3 * Count(s, '>')
  {
    if s != [] {
      EscapeEachLength(s[1..]);
    }
  }

  lemma {:induction false} CountPositive(s: string, c: char)
    requires c in s
    ensures Count(s, c) > 0
  {
    if s[0] != c {
      CountPositive(s[1..], c);
    }
  }

  /** Escaping leaves a text unchanged exactly when it holds none of `&`, `<`, `>`. */
  lemma EscapeHtmlIdentityIff(s: string)
    ensures EscapeHtml(s) == s <==> ('&' !in s && '<' !in s && '>' !in s)
  {
    EscapeHtmlIsPerCharacter(s);
    EscapeEachLength(s);
    if '&' in s { CountPositive(s, '&'); }
    if '<' in s { CountPositive(s, '<'); }
    if '>' in s { CountPositive(s, '>'); }
  }

  // ---------------------------------------------------------------------
  // _strip_html: delete every match of the tag pattern <[^>]+>
  // ---------------------------------------------------------------------

  /** Index of the first `c` in `s` at or after `from`, or -1: the pattern's
      search for the `>` that closes a tag. */
  function IndexFrom(s: string, c: char, from: nat): (j: int)
    requires from <= |s|
    ensures j == -1 ==> forall k :: from <= k < |s| ==> s[k] != c
    ensures j != -1 ==> from <= j < |s| && s[j] == c && forall k :: from <= k < j ==> s[k] != c
    decreases |s| - from
  {
    if from == |s| then -1
    else if s[from] == c then from
    else IndexFrom(s, c, from + 1)
  }

  /** The regular-expression substitution as a left-to-right scan: a `<`
      whose first following `>` is not adjacent to it starts a match that
      runs up to and including that `>`; every other character is kept. */
  function StripHtml(s: string): (r: string)
    ensures |r| <= |s|
    ensures forall x :: x in r ==> x in s
    decreases |s|
  {
    if s == [] then []
    else
      var j := IndexFrom(s, '>', 1);
      if s[0] == '<' && j > 1 then StripHtml(s[j + 1..])
      else [s[0]] + StripHtml(s[1..])
  }

  /** Reference definition: the pattern `<[^>]+>` matches at index `i`. */
  predicate TagAt(s: string, i: nat)
  {
    i + 1 < |s| && s[i] == '<' && s[i + 1] != '>' && '>' in s[i + 2..]
  }

  /** No match of the pattern starts anywhere in `s`. */
  predicate TagFree(s: string)
  {
    forall i: nat :: i < |s| ==> !TagAt(s, i)
  }

  /** The scan's test at the head of the text is the pattern's match. */
  lemma TagAtHead(s: string)
    requires s != []
    ensures TagAt(s, 0) <==> (s[0] == '<' && IndexFrom(s, '>', 1) > 1)
  {
    var j := IndexFrom(s, '>', 1);
    if TagAt(s, 0) {
      var k :| 2 <= k < |s| && s[k] == '>';
      assert s[k] == s[2..][k - 2];
    }
    if s[0] == '<' && j > 1 {
      assert s[2..][j - 2] == '>';
    }
  }

  /** What the substitution leaves is a subsequence of its input. */
  lemma {:induction false} StripHtmlSubsequence(s: string)
    ensures IsSubsequence(StripHtml(s), s)
    ensures |StripHtml(s)| <= |s|
    ensures forall x :: x in StripHtml(s) ==> x in s
    decreases |s|
  {
    if s != [] {
      var j := IndexFrom(s, '>', 1);
      if s[0] == '<' && j > 1 {
        StripHtmlSubsequence(s[j + 1..]);
        SubsequenceOfSuffix(StripHtml(s[j + 1..]), s, j + 1);
      } else {
        StripHtmlSubsequence(s[1..]);
        var r := [s[0]] + StripHtml(s[1..]);
        assert r[0] == s[0] && r[1..] == StripHtml(s[1..]);
      }
      SubsequenceLength(StripHtml(s), s);
    }
  }

  lemma {:induction false} SubsequenceOfSuffix(a: string, s: string, k: nat)
    requires k <= |s| && IsSubsequence(a, s[k..])
    ensures IsSubsequence(a, s)
    decreases k
  {
    if k > 0 {
      assert s[1..][k - 1..] == s[k..];
      SubsequenceOfSuffix(a, s[1..], k - 1);
    }
  }

  /** A `<` is dropped only as part of a tag, so no tag survives. */
  lemma {:induction false} StripHtmlTagFree(s: string)
    ensures TagFree(StripHtml(s))
    decreases |s|
  {
    if s != [] {
      var j := IndexFrom(s, '>', 1);
      if s[0] == '<' && j > 1 {
        StripHtmlTagFree(s[j + 1..]);
      } else {
        var t := StripHtml(s[1..]);
        var r := [s[0]] + t;
        StripHtmlTagFree(s[1..]);
        StripHtmlSubsequence(s[1..]);
        TagAtHead(s);
        forall i: nat | i < |r| ensures !TagAt(r, i) {
          if i == 0 {
            assert j == -1 ==> '>' !in s[1..];
            assert j == 1 ==> t[0] == '>';
          } else {
            assert r[i..] == t[i - 1..];
            assert !TagAt(t, i - 1);
          }
        }
      }
    }
  }

  /** Text without tags passes through unchanged. */
  lemma {:induction false} StripHtmlTagFreeIdentity(s: string)
    requires TagFree(s)
    ensures StripHtml(s) == s
    decreases |s|
  {
    if s != [] {
      TagAtHead(s);
      assert !TagAt(s, 0);
      forall i: nat | i < |s| - 1 ensures !TagAt(s[1..], i) {
        assert s[1..][i..] == s[i + 1..];
        assert !TagAt(s, i + 1);
      }
      StripHtmlTagFreeIdentity(s[1..]);
      assert s == [s[0]] + s[1..];
    }
  }

  /** The substitution is the identity exactly on tag-free text. */
  lemma StripHtmlFixedPointIff(s: string)
    ensures StripHtml(s) == s <==> TagFree(s)
  {
    StripHtmlTagFree(s);
    if TagFree(s) {
      StripHtmlTagFreeIdentity(s);
    }
  }

  /** Stripping twice strips nothing more. */
  lemma StripHtmlIdempotent(s: string)
    ensures StripHtml(StripHtml(s)) == StripHtml(s)
  {
    StripHtmlTagFree(s);
    StripHtmlTagFreeIdentity(StripHtml(s));
  }

  /** Text without `<` is returned unchanged. */
  lemma StripHtmlNoOpenBracket(s: string)
    requires '<' !in s
    ensures StripHtml(s) == s
  {
    forall i: nat ensures !TagAt(s, i) {
      if i < |s| { assert s[i] in s; }
    }
    StripHtmlTagFreeIdentity(s);
  }

  /** Characters before the first `<` are always kept. */
  lemma {:induction false} StripHtmlPlainPrefix(x: string, y: string)
    requires '<' !in x
    ensures StripHtml(x + y) == x + StripHtml(y)
  {
    if x == [] {
      assert x + y == y;
    } else {
      var s := x + y;
      assert s[0] == x[0] && x[0] in x;
      assert s[1..] == x[1..] + y;
      StripHtmlPlainPrefix(x[1..], y);
      assert x == [x[0]] + x[1..];
    }
  }

  /** A complete tag at the head of the text is dropped. */
  lemma StripHtmlLeadingTag(tag: string, x: string)
    requires |tag| >= 3 && tag[0] == '<' && tag[|tag| - 1] == '>'
    requires forall k :: 1 <= k < |tag| - 1 ==> tag[k] != '>'
    ensures StripHtml(tag + x) == StripHtml(x)
  {
    var s := tag + x;
    var j := IndexFrom(s, '>', 1);
    assert s[|tag| - 1] == '>';
    assert j == |tag| - 1;
    assert s[j + 1..] == x;
  }

  /** Escaped text has no `<`, so stripping leaves it alone. */
  lemma StripHtmlOfEscaped(s: string)
    ensures StripHtml(EscapeHtml(s)) == EscapeHtml(s)
  {
    StripHtmlNoOpenBracket(EscapeHtml(s));
  }

  // ---------------------------------------------------------------------
  // _split_text
  // ---------------------------------------------------------------------

  /** `str.rfind(c, 0, end)`: the last index below `end` holding `c`, or -1. */
  function LastIndexBefore(s: string, c: char, end: nat): (r: int)
    requires end <= |s|
    ensures -1 <= r < end
    ensures r == -1 <==> c !in s[..end]
    ensures r >= 0 ==> s[r] == c && c !in s[r + 1..end]
  {
    if end == 0 then -1
    else if s[end - 1] == c then end - 1
    else
      var r := LastIndexBefore(s, c, end - 1);
      assert s[..end] == s[..end - 1] + [s[end - 1]];
      assert r >= 0 ==> s[r + 1..end] == s[r + 1..end - 1] + [s[end - 1]];
      r
  }

  /** How many newlines `str.lstrip("\n")` removes from the front of `s`. */
  function LeadingNewlines(s: string): (n: nat)
    ensures n <= |s|
    ensures forall k :: 0 <= k < n ==> s[k] == '\n'
    ensures n < |s| ==> s[n] != '\n'
  {
    if s != [] && s[0] == '\n' then 1 + LeadingNewlines(s[1..]) else 0
  }

  /** `str.lstrip("\n")`. */
  function StripLeadingNewlines(s: string): (r: string)
    ensures |r| <= |s|
    ensures r == [] || r[0] != '\n'
  {
    s[LeadingNewlines(s)..]
  }

  /** Where the loop cuts a text that does not fit: just before the last
      newline among the first `limit` characters, or at `limit` if there is none. */
  function CutPos(s: string, limit: nat): (p: nat)
    requires 1 <= limit < |s|
    ensures '\n' in s[..limit] ==> p < limit && s[p] == '\n' && '\n' !in s[p + 1..limit]
    ensures '\n' !in s[..limit] ==> p == limit
  {
    var r := LastIndexBefore(s, '\n', limit);
    if r == -1 then limit else r
  }

  /** The loop's chunks: what remains after each cut loses its leading newlines. */
  function Chunks(text: string, limit: nat): (r: seq<string>)
    requires limit >= 1
    ensures |r| >= 1 <==> text != []
    decreases |text|
  {
    if text == [] then []
    else if |text| <= limit then [text]
    else
      var p := CutPos(text, limit);
      var rest := StripLeadingNewlines(text[p..]);
      assert p == 0 ==> text[0] == '\n' && |rest| < |text|;
      [text[..p]] + Chunks(rest, limit)
  }

  /** `_split_text(text, limit)`: a text that fits is returned alone (even
      when empty); otherwise the loop's chunks. */
  function SplitSpec(text: string, limit: nat): (r: seq<string>)
    requires limit >= 1
    ensures |r| >= 1
    ensures |text| <= limit ==> r == [text]
  {
    if |text| <= limit then [text] else Chunks(text, limit)
  }

  /** One turn of the loop: the cut chunk, then the chunks of the stripped remainder. */
  lemma ChunksStep(text: string, limit: nat)
    requires 1 <= limit < |text|
    ensures var p := CutPos(text, limit);
      var rest := StripLeadingNewlines(text[p..]);
      |rest| < |text| &&
      Chunks(text, limit) == [text[..p]] + Chunks(rest, limit)
  {
  }

  /** The loop of `_split_text`. */
  method SplitText(text: string, limit: nat) returns (chunks: seq<string>)
    requires limit >= 1
    ensures chunks == SplitSpec(text, limit)
    ensures |text| <= limit ==> chunks == [text]
    ensures |chunks| >= 1
    ensures forall i :: 0 <= i < |chunks| ==> |chunks[i]| <= limit
  {
    if |text| <= limit {
      return [text];
    }
    chunks := [];
    var rest := text;
    while rest != []
      invariant chunks + Chunks(rest, limit) == Chunks(text, limit)
      decreases |rest|
    {
      if |rest| <= limit {
        assert Chunks(rest, limit) == [rest];
        chunks := chunks + [rest];
        break;
      }
      var splitPos := LastIndexBefore(rest, '\n', limit);
      if splitPos == -1 {
        splitPos := limit;
      }
      var next := StripLeadingNewlines(rest[splitPos..]);
      ChunksStep(rest, limit);
      AppendAssociative(chunks, [rest[..splitPos]], Chunks(next, limit));
      chunks := chunks + [rest[..splitPos]];
      rest := next;
    }
    assert chunks == Chunks(text, limit);
    ChunksBounded(text, limit);
  }

  /** Every chunk fits the limit. */
  lemma {:induction false} ChunksBounded(text: string, limit: nat)
    requires limit >= 1
    ensures |Chunks(text, limit)| >= 1 || text == []
    ensures forall i :: 0 <= i < |Chunks(text, limit)| ==> |Chunks(text, limit)[i]| <= limit
    decreases |text|
  {
    if |text| > limit {
      var p := CutPos(text, limit);
      var rest := StripLeadingNewlines(text[p..]);
      ChunksBounded(rest, limit);
    }
  }

  /** Every chunk of a text not starting with a newline is non-empty and
      does not start with a newline. */
  lemma {:induction false} ChunksOfStripped(text: string, limit: nat)
    requires limit >= 1
    requires text == [] || text[0] != '\n'
    ensures forall i :: 0 <= i < |Chunks(text, limit)| ==>
      Chunks(text, limit)[i] != [] && Chunks(text, limit)[i][0] != '\n'
    decreases |text|
  {
    if |text| > limit {
      var p := CutPos(text, limit);
      var rest := StripLeadingNewlines(text[p..]);
      assert p > 0;
      ChunksOfStripped(rest, limit);
    }
  }

  /** Chunks after the first are non-empty and never start with a newline;
      only the first chunk can be empty. */
  lemma SplitLaterChunks(text: string, limit: nat)
    requires limit >= 1
    ensures forall i :: 1 <= i < |SplitSpec(text, limit)| ==>
      SplitSpec(text, limit)[i] != [] && SplitSpec(text, limit)[i][0] != '\n'
  {
    if |text| > limit {
      var p := CutPos(text, limit);
      var rest := StripLeadingNewlines(text[p..]);
      ChunksOfStripped(rest, limit);
      assert Chunks(text, limit)[1..] == Chunks(rest, limit);
      forall i | 1 <= i < |Chunks(text, limit)|
        ensures Chunks(text, limit)[i] == Chunks(rest, limit)[i - 1]
      {
      }
    }
  }

  /** A non-empty text not starting with a newline yields only non-empty chunks. */
  lemma SplitNonEmptyChunks(text: string, limit: nat)
    requires limit >= 1
    requires text != [] && text[0] != '\n'
    ensures forall i :: 0 <= i < |SplitSpec(text, limit)| ==> SplitSpec(text, limit)[i] != []
  {
    if |text| > limit {
      ChunksOfStripped(text, limit);
    }
  }

  /** The first chunk of a text that does not fit ends right before the last
      newline among its first `limit` characters, or has exactly `limit`
      characters when there is no such newline. */
  lemma SplitFirstChunk(text: string, limit: nat)
    requires 1 <= limit < |text|
    ensures var c := SplitSpec(text, limit)[0];
      c == text[..|c|] &&
      ('\n' in text[..limit] ==> |c| < limit && text[|c|] == '\n' && '\n' !in text[|c| + 1..limit]) &&
      ('\n' !in text[..limit] ==> |c| == limit)
  {
  }

  /** Newlines dropped after each chunk (the leading newlines of each remainder). */
  ghost function Gaps(text: string, limit: nat): (g: seq<nat>)
    requires limit >= 1
    ensures |g| == |Chunks(text, limit)|
    decreases |text|
  {
    if text == [] then []
    else if |text| <= limit then [0]
    else
      var p := CutPos(text, limit);
      var rest := StripLeadingNewlines(text[p..]);
      [LeadingNewlines(text[p..])] + Gaps(rest, limit)
  }

  lemma GapsStep(text: string, limit: nat)
    requires 1 <= limit < |text|
    ensures var p := CutPos(text, limit);
      var rest := StripLeadingNewlines(text[p..]);
      Gaps(text, limit) == [LeadingNewlines(text[p..])] + Gaps(rest, limit)
  {
  }

  /** Chunks put back together, each followed by its run of newlines. */
  function Rejoin(chunks: seq<string>, gaps: seq<nat>): string
    requires |chunks| == |gaps|
  {
    if chunks == [] then [] else chunks[0] + Newlines(gaps[0]) + Rejoin(chunks[1..], gaps[1..])
  }

  /** Splitting only removes runs of newlines at the cut points: putting the
      runs back reconstructs the input exactly. */
  lemma {:induction false} ChunksRejoin(text: string, limit: nat)
    requires limit >= 1
    ensures Rejoin(Chunks(text, limit), Gaps(text, limit)) == text
    decreases |text|
  {
    if |text| > limit {
      var p := CutPos(text, limit);
      var rest := StripLeadingNewlines(text[p..]);
      var n := LeadingNewlines(text[p..]);
      ChunksStep(text, limit);
      GapsStep(text, limit);
      RejoinCons(text[..p], n, Chunks(rest, limit), Gaps(rest, limit));
      ChunksRejoin(rest, limit);
      StripLeadingNewlinesSplit(text[p..]);
      PrefixAndSuffix(text, p, Newlines(n), rest);
    } else if text != [] {
      assert Newlines(0) == [];
      RejoinCons(text, 0, [], []);
      assert [text] + [] == [text] && [0] + [] == [0];
    }
  }

  lemma RejoinCons(c: string, n: nat, cs: seq<string>, gs: seq<nat>)
    requires |cs| == |gs|
    ensures Rejoin([c] + cs, [n] + gs) == c + Newlines(n) + Rejoin(cs, gs)
  {
    assert ([c] + cs)[1..] == cs && ([n] + gs)[1..] == gs;
  }

  lemma PrefixAndSuffix(s: string, p: nat, a: string, b: string)
    requires p <= |s| && s[p..] == a + b
    ensures s[..p] + a + b == s
  {
    assert s == s[..p] + s[p..];
  }

  /** What `lstrip("\n")` removed is a run of newlines. */
  lemma StripLeadingNewlinesSplit(s: string)
    ensures s == Newlines(LeadingNewlines(s)) + StripLeadingNewlines(s)
  {
    var n := LeadingNewlines(s);
    assert s[..n] == Newlines(n);
    assert s == s[..n] + s[n..];
  }

  /** The concatenation of a list of chunks. */
  function Concat(chunks: seq<string>): string
  {
    if chunks == [] then [] else chunks[0] + Concat(chunks[1..])
  }

  lemma {:induction false} RemoveNewlinesAppend(a: string, b: string)
    ensures RemoveNewlines(a + b) == RemoveNewlines(a) + RemoveNewlines(b)
  {
    if a == [] {
      assert a + b == b;
    } else {
      assert (a + b)[1..] == a[1..] + b;
      RemoveNewlinesAppend(a[1..], b);
    }
  }

  lemma {:induction false} RemoveNewlinesOfNewlines(n: nat)
    ensures RemoveNewlines(Newlines(n)) == []
  {
    if n > 0 {
      assert Newlines(n)[1..] == Newlines(n - 1);
      RemoveNewlinesOfNewlines(n - 1);
    }
  }

  lemma {:induction false} RemoveNewlinesRejoin(chunks: seq<string>, gaps: seq<nat>)
    requires |chunks| == |gaps|
    ensures RemoveNewlines(Rejoin(chunks, gaps)) == RemoveNewlines(Concat(chunks))
  {
    if chunks != [] {
      RemoveNewlinesRejoin(chunks[1..], gaps[1..]);
      RemoveNewlinesAppend(chunks[0] + Newlines(gaps[0]), Rejoin(chunks[1..], gaps[1..]));
      RemoveNewlinesAppend(chunks[0], Newlines(gaps[0]));
      RemoveNewlinesOfNewlines(gaps[0]);
      RemoveNewlinesAppend(chunks[0], Concat(chunks[1..]));
    }
  }

  /** Apart from newlines, the chunks hold exactly the input's characters, in order. */
  lemma SplitKeepsNonNewlines(text: string, limit: nat)
    requires limit >= 1
    ensures RemoveNewlines(Concat(SplitSpec(text, limit))) == RemoveNewlines(text)
  {
    if |text| <= limit {
      assert [text][1..] == [];
      assert Concat([text][1..]) == [];
      assert Concat([text]) == text;
      assert SplitSpec(text, limit) == [text];
    } else {
      ChunksRejoin(text, limit);
      RemoveNewlinesRejoin(Chunks(text, limit), Gaps(text, limit));
    }
  }

  // ---------------------------------------------------------------------
  // The /read reply (pure part): header, stripped content, chunking
  // ---------------------------------------------------------------------

  /** Bold, escaped page title followed by a blank line. */
  function ReadHeader(pageTitle: string): (h: string)
    ensures |h| >= 9 && h[0] == '<'
  {
    "<b>" + EscapeHtml(pageTitle) + "</b>\n\n"
  }

  /** The header's only markup is the bold tag pair: removing tags leaves
      the escaped title and the blank line. */
  lemma ReadHeaderMarkup(pageTitle: string)
    ensures StripHtml(ReadHeader(pageTitle)) == EscapeHtml(pageTitle) + "\n\n"
  {
    var e := EscapeHtml(pageTitle);
    assert ReadHeader(pageTitle) == "<b>" + (e + "</b>\n\n");
    StripHtmlLeadingTag("<b>", e + "</b>\n\n");
    StripHtmlPlainPrefix(e, "</b>\n\n");
    StripClosingBold();
  }

  lemma StripClosingBold()
    ensures StripHtml("</b>\n\n") == "\n\n"
  {
    assert "</b>\n\n" == "</b>" + "\n\n";
    StripHtmlLeadingTag("</b>", "\n\n");
    assert "\n\n" + [] == "\n\n";
    StripHtmlPlainPrefix("\n\n", []);
  }

  /** The messages sent for a found page: its header and tag-stripped
      content (none reads as empty), split to Telegram's size limit. */
  method ReadReplyChunks(pageTitle: string, content: Option<string>) returns (chunks: seq<string>)
    ensures var body := StripHtml(if content.Some? then content.value else "");
      chunks == SplitSpec(ReadHeader(pageTitle) + body, MaxMessageLength)
    ensures |chunks| >= 1
    ensures forall i :: 0 <= i < |chunks| ==> 0 < |chunks[i]| <= MaxMessageLength
  {
    var body := StripHtml(if content.Some? then content.value else "");
    var header := ReadHeader(pageTitle);
    chunks := SplitText(header + body, MaxMessageLength);
    SplitNonEmptyChunks(header + body, MaxMessageLength);
  }
}
