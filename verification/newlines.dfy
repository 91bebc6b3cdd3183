/**
 * Line-ending normalisation applied to every article body before it is saved:
 * `text.replace('\r\n', '\n')`. The definition is Python's replace; ScanCrLf is an
 * independent character-by-character reading of the same rule, and the
 * properties of the normalisation are proved through it.
 */
module Newlines {
  import opened Text

  const CRLF: string := "\r\n"
  const LF: string := "\n"

  /** The body as it is written to the store: every `\r\n` becomes `\n`. */
  function NormalizeNewlines(s: string): (r: string)
    ensures |r| <= |s|
    ensures !Contains(s, CRLF) ==> r == s
  {
    Replace(s, CRLF, LF)
  }

  /** Reads `s` from the left: a `\r` directly followed by `\n` is dropped, all else is kept. */
  function ScanCrLf(s: string): string
    decreases |s|
  {
    if |s| >= 2 && s[0] == '\r' && s[1] == '\n' then LF + ScanCrLf(s[2..])
    else if s == [] then []
    else [s[0]] + ScanCrLf(s[1..])
  }

  lemma OccursCrLf(s: string, k: nat)
    ensures OccursAt(s, CRLF, k) <==> k + 2 <= |s| && s[k] == '\r' && s[k + 1] == '\n'
  {
    if k + 2 <= |s| && s[k] == '\r' && s[k + 1] == '\n' {
      assert s[k..k + 2] == CRLF;
    }
  }

  /** A leading `\r\n` is scanned as one `\n`. */
  lemma ScanAtCrLf(t: string)
    requires |t| >= 2 && t[0] == '\r' && t[1] == '\n'
    ensures ScanCrLf(t) == LF + ScanCrLf(t[2..])
  {
  }

  /** Positions `k..i` hold no `\r\n`, so the scan copies them unchanged. */
  lemma {:induction false} ScanCopies(s: string, k: nat, i: nat)
    requires k <= i <= |s|
    requires forall j :: k <= j < i ==> !OccursAt(s, CRLF, j)
    ensures ScanCrLf(s[k..]) == s[k..i] + ScanCrLf(s[i..])
    decreases i - k
  {
    if k < i {
      OccursCrLf(s, k);
      var t := s[k..];
      assert !(|t| >= 2 && t[0] == '\r' && t[1] == '\n');
      assert t[1..] == s[k + 1..];
      ScanCopies(s, k + 1, i);
      assert s[k..i] == [s[k]] + s[k + 1..i];
    }
  }

  /** With no `\r\n` from `k` on, the scan copies the whole suffix. */
  lemma ScanCopiesAll(s: string, k: nat)
    requires k <= |s|
    requires forall j :: k <= j ==> !OccursAt(s, CRLF, j)
    ensures ScanCrLf(s[k..]) == s[k..]
  {
    ScanCopies(s, k, |s|);
    assert s[|s|..] == [] && s[k..|s|] == s[k..];
  }

  /** The scan copies up to the first `\r\n` at `i`, turns it into `\n`, and goes on after it. */
  lemma ScanAcrossCrLf(s: string, k: nat, i: nat)
    requires k <= i && OccursAt(s, CRLF, i)
    requires forall j :: k <= j < i ==> !OccursAt(s, CRLF, j)
    ensures ScanCrLf(s[k..]) == s[k..i] + LF + ScanCrLf(s[i + 2..])
  {
    ScanCopies(s, k, i);
    OccursCrLf(s, i);
    ScanAtCrLf(s[i..]);
    assert s[i..][2..] == s[i + 2..];
  }

  /** Python's replace, started at `k`, agrees with the scan of the suffix from `k`. */
  lemma {:induction false} ReplaceFromIsScan(s: string, k: nat)
    requires k <= |s|
    ensures ReplaceFrom(s, CRLF, LF, k) == ScanCrLf(s[k..])
    decreases |s| - k
  {
    var found := FindFrom(s, CRLF, k);
    if found.None? {
      ScanCopiesAll(s, k);
    } else {
      var i := found.value;
      ReplaceFromIsScan(s, i + 2);
      ScanAcrossCrLf(s, k, i);
    }
  }

  /** The normalisation is exactly the left-to-right scan. */
  lemma NormalizeIsScan(s: string)
    ensures NormalizeNewlines(s) == ScanCrLf(s)
  {
    ReplaceFromIsScan(s, 0);
    assert s[0..] == s;
  }

  /** Counting over a concatenation. */
  lemma {:induction false} CountCharAppend(a: string, b: string, c: char)
    ensures CountChar(a + b, c) == CountChar(a, c) + CountChar(b, c)
    decreases |a|
  {
    if a == [] {
      assert a + b == b;
    } else {
      assert (a + b)[1..] == a[1..] + b;
      CountCharAppend(a[1..], b, c);
    }
  }

  /**
   * The scan only deletes carriage returns: every other character keeps its
   * count, and the carriage returns lost are exactly the characters lost.
   */
  lemma {:induction false} ScanCounts(s: string, c: char)
    ensures |ScanCrLf(s)| <= |s|
    ensures c != '\r' ==> CountChar(ScanCrLf(s), c) == CountChar(s, c)
    ensures CountChar(s, '\r') - CountChar(ScanCrLf(s), '\r') == |s| - |ScanCrLf(s)|
    decreases |s|
  {
    if |s| >= 2 && s[0] == '\r' && s[1] == '\n' {
      ScanCounts(s[2..], c);
      ScanCounts(s[2..], '\r');
      CountCharAppend(LF, ScanCrLf(s[2..]), c);
      CountCharAppend(LF, ScanCrLf(s[2..]), '\r');
      assert s[1..][1..] == s[2..];
    } else if s != [] {
      ScanCounts(s[1..], c);
      ScanCounts(s[1..], '\r');
      CountCharAppend([s[0]], ScanCrLf(s[1..]), c);
      CountCharAppend([s[0]], ScanCrLf(s[1..]), '\r');
    }
  }

  /**
   * Normalisation never lengthens the body, keeps the number of `\n` (and of
   * every character other than `\r`) and removes only carriage returns.
   */
  lemma NormalizeCounts(s: string, c: char)
    ensures |NormalizeNewlines(s)| <= |s|
    ensures CountChar(NormalizeNewlines(s), '\n') == CountChar(s, '\n')
    ensures c != '\r' ==> CountChar(NormalizeNewlines(s), c) == CountChar(s, c)
    ensures CountChar(s, '\r') - CountChar(NormalizeNewlines(s), '\r') == |s| - |NormalizeNewlines(s)|
  {
    NormalizeIsScan(s);
    ScanCounts(s, c);
    ScanCounts(s, '\n');
  }

  /** A body without `\r\n` is stored as it is; one with `\r\n` gets strictly shorter. */
  lemma NormalizeUnchangedIff(s: string)
    ensures NormalizeNewlines(s) == s <==> !Contains(s, CRLF)
    ensures |NormalizeNewlines(s)| < |s| <==> Contains(s, CRLF)
  {
  }

  /** A body is blank after normalisation exactly when it was blank before. */
  lemma {:induction false} NormalizeBlank(s: string)
    ensures NormalizeNewlines(s) == "" <==> s == ""
  {
    NormalizeIsScan(s);
  }

  /** Normalisation is not idempotent: `\r\r\n` becomes `\r\n`, which becomes `\n`. */
  lemma NormalizeNotIdempotent()
    ensures NormalizeNewlines("\r\r\n") == "\r\n"
    ensures NormalizeNewlines(NormalizeNewlines("\r\r\n")) == "\n"
  {
    NormalizeIsScan("\r\r\n");
    NormalizeIsScan("\r\n");
    assert "\r\r\n"[1..] == "\r\n";
    assert "\r\n"[2..] == "";
  }
}
