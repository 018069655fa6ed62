/** The decimal-comma rewrite applied to accepted formula payloads:
    `inner.replace(/(\d),(\d)/g, "$1.$2")`. */
module Normalizer {

  /** `\d` without the unicode flag: an ASCII decimal digit. */
  predicate IsDigit(c: char) {
    '0' <= c <= '9'
  }

  /** The pattern `(\d),(\d)` matches at offset i. */
  predicate DecimalCommaAt(s: string, i: nat) {
    i + 3 <= |s| && IsDigit(s[i]) && s[i + 1] == ',' && IsDigit(s[i + 2])
  }

  /** The global replace resumed at cursor i: a match at i is rewritten and
      the cursor jumps past it; otherwise one character is copied. */
  function NormalizeFrom(s: string, i: nat): (r: string)
    requires i <= |s|
    decreases |s| - i
    ensures |r| == |s| - i
  {
    if i == |s| then []
    else if DecimalCommaAt(s, i) then [s[i], '.', s[i + 2]] + NormalizeFrom(s, i + 3)
    else [s[i]] + NormalizeFrom(s, i + 1)
  }

  /** The payload after rewriting every decimal comma found left to right. */
  function NormalizeDecimalComma(s: string): (r: string)
    ensures |r| == |s|
  {
    NormalizeFrom(s, 0)
  }

  /** The comma at offset k is rewritten: it sits between two digits, and the
      digit before it was not already taken as the right-hand digit of a
      rewrite of the comma at k - 2 (matches do not overlap). */
  predicate ReplacedAt(s: string, k: nat)
    decreases k
  {
    1 <= k && DecimalCommaAt(s, k - 1) && !(k >= 2 && ReplacedAt(s, k - 2))
  }

  /** The cursor of the global replace can stand at i: nothing before i
      reaches into offset i or i + 1. */
  predicate CursorAt(s: string, i: nat) {
    !ReplacedAt(s, i) && (i == 0 || !ReplacedAt(s, i - 1))
  }

  /** Output position k of the replace resumed at i is a dot where the comma
      at k is rewritten, and the input character elsewhere. */
  predicate RewrittenFrom(s: string, i: nat, k: nat)
    requires i <= k < |s|
  {
    NormalizeFrom(s, i)[k - i] == if ReplacedAt(s, k) then '.' else s[k]
  }

  /** A match at the cursor: the rewritten triple is right, and the rest is
      what the replace resumed at j, three characters on, produces. */
  lemma RewriteStep(s: string, i: nat, j: nat)
    requires j == i + 3 <= |s| && CursorAt(s, i) && DecimalCommaAt(s, i)
    requires forall k :: j <= k < |s| ==> RewrittenFrom(s, j, k)
    ensures forall k :: i <= k < |s| ==> RewrittenFrom(s, i, k)
  {
    assert ReplacedAt(s, i + 1);
    assert !ReplacedAt(s, i + 2);
    var r, tail := NormalizeFrom(s, i), NormalizeFrom(s, j);
    assert r == [s[i], '.', s[i + 2]] + tail;
    forall k | i <= k < |s|
      ensures RewrittenFrom(s, i, k)
    {
      if k >= j {
        assert RewrittenFrom(s, j, k);
        assert r[k - i] == tail[k - j];
      }
    }
  }

  /** No match at the cursor: one character is copied, and the rest is what
      the replace resumed at j, one character on, produces. */
  lemma CopyStep(s: string, i: nat, j: nat)
    requires j == i + 1 <= |s| && CursorAt(s, i) && !DecimalCommaAt(s, i)
    requires forall k :: j <= k < |s| ==> RewrittenFrom(s, j, k)
    ensures forall k :: i <= k < |s| ==> RewrittenFrom(s, i, k)
  {
    var r, tail := NormalizeFrom(s, i), NormalizeFrom(s, j);
    assert r == [s[i]] + tail;
    forall k | i <= k < |s|
      ensures RewrittenFrom(s, i, k)
    {
      if k >= j {
        assert RewrittenFrom(s, j, k);
        assert r[k - i] == tail[k - j];
      }
    }
  }

  /** From any cursor position the replace can reach, each output character
      is a dot where the comma is rewritten and the input character elsewhere. */
  lemma {:induction false} NormalizeFromAt(s: string, i: nat)
    requires i <= |s| && CursorAt(s, i)
    decreases |s| - i
    ensures forall k :: i <= k < |s| ==> RewrittenFrom(s, i, k)
  {
    if i == |s| {
    } else if DecimalCommaAt(s, i) {
      assert ReplacedAt(s, i + 1);
      assert !ReplacedAt(s, i + 2) && !ReplacedAt(s, i + 3);
      NormalizeFromAt(s, i + 3);
      RewriteStep(s, i, i + 3);
    } else {
      assert !ReplacedAt(s, i + 1);
      NormalizeFromAt(s, i + 1);
      CopyStep(s, i, i + 1);
    }
  }

  /** The rewrite, position by position: a character changes exactly when it
      is a comma the left-to-right, non-overlapping match rewrites, and it
      then becomes a dot. */
  lemma NormalizeDecimalCommaAt(s: string)
    ensures forall k :: 0 <= k < |s| ==>
      NormalizeDecimalComma(s)[k] == if ReplacedAt(s, k) then '.' else s[k]
  {
    NormalizeFromAt(s, 0);
    forall k | 0 <= k < |s|
      ensures NormalizeDecimalComma(s)[k] == if ReplacedAt(s, k) then '.' else s[k]
    {
      assert RewrittenFrom(s, 0, k);
    }
  }

  /** Only commas between two digits change, and only into dots; the length is kept. */
  lemma NormalizeOnlyRewritesDecimalCommas(s: string)
    ensures |NormalizeDecimalComma(s)| == |s|
    ensures forall k :: 0 <= k < |s| && NormalizeDecimalComma(s)[k] != s[k] ==>
      0 < k < |s| - 1 && s[k] == ',' && NormalizeDecimalComma(s)[k] == '.' &&
      IsDigit(s[k - 1]) && IsDigit(s[k + 1])
  {
    NormalizeDecimalCommaAt(s);
  }

  /** A payload without a digit-comma-digit run is left as it is. */
  lemma NormalizeWithoutDecimalComma(s: string)
    requires forall i :: 0 <= i < |s| ==> !DecimalCommaAt(s, i)
    ensures NormalizeDecimalComma(s) == s
  {
    NormalizeDecimalCommaAt(s);
  }

  /** `1,2,3` becomes `1.2,3`: the `2` is used by the first match, so the second comma stays. */
  lemma NormalizeChainExample()
    ensures NormalizeDecimalComma("1,2,3") == "1.2,3"
  {
    NormalizeDecimalCommaAt("1,2,3");
  }

  /** `9,800` becomes `9.800`: only one digit is needed on each side. */
  lemma NormalizeThousandsExample()
    ensures NormalizeDecimalComma("9,800") == "9.800"
  {
    NormalizeDecimalCommaAt("9,800");
  }
}
