/**
 * The PHP built-in functions the scanner and the scoper patchers rely on:
 * `strtolower` (ASCII only), `str_replace` with a string needle and with
 * needle/replacement arrays, and `array_unique(..., SORT_STRING)` followed by
 * `array_values`.
 */
module PhpBuiltins {

  // ---------------------------------------------------------------------------
  // strtolower
  // ---------------------------------------------------------------------------

  /** `strtolower` on one byte: only 'A'..'Z' change (no locale). */
  function LowerChar(c: char): char {
    if 'A' <= c <= 'Z' then (c as int + 32) as char else c
  }

  /** `strtolower` */
  function Lower(s: string): string {
    seq(|s|, i requires 0 <= i < |s| => LowerChar(s[i]))
  }

  /** `strtolower($a) === strtolower($b)` */
  predicate SameIgnoringCase(a: string, b: string) {
    Lower(a) == Lower(b)
  }

  /** Comparing ignoring case is an equivalence that only ever identifies
      strings of equal length whose letters agree up to ASCII case. */
  lemma SameIgnoringCaseMeaning(a: string, b: string)
    ensures SameIgnoringCase(a, b) <==>
            |a| == |b| && forall i :: 0 <= i < |a| ==> LowerChar(a[i]) == LowerChar(b[i])
    ensures SameIgnoringCase(a, a)
    ensures SameIgnoringCase(a, b) ==> SameIgnoringCase(b, a)
  {
    if |a| == |b| && forall i :: 0 <= i < |a| ==> LowerChar(a[i]) == LowerChar(b[i]) {
      assert forall i :: 0 <= i < |a| ==> Lower(a)[i] == Lower(b)[i];
    }
    if SameIgnoringCase(a, b) {
      assert |Lower(a)| == |Lower(b)|;
      forall i | 0 <= i < |a| ensures LowerChar(a[i]) == LowerChar(b[i]) {
        assert Lower(a)[i] == Lower(b)[i];
      }
    }
  }

  // ---------------------------------------------------------------------------
  // str_replace
  // ---------------------------------------------------------------------------

  /** `needle` occurs in `s` starting at index `i`. */
  predicate OccursAt(needle: string, s: string, i: int) {
    0 <= i && i + |needle| <= |s| && s[i..i + |needle|] == needle
  }

  /** `str_contains($s, $needle)` */
  ghost predicate Occurs(needle: string, s: string) {
    exists i :: OccursAt(needle, s, i)
  }

  /** `str_replace($search, $replace, $subject)` for string arguments: the
      subject is scanned left to right, each occurrence of the needle is
      replaced and scanning resumes after it, so occurrences never overlap
      and the replacement text is never scanned again. An empty needle
      leaves the subject as it is. */
  function StrReplace(search: string, replace: string, subject: string): string
    decreases |subject|
  {
    if |search| == 0 || |subject| < |search| then subject
    else if subject[..|search|] == search then
      replace + StrReplace(search, replace, subject[|search|..])
    else
      [subject[0]] + StrReplace(search, replace, subject[1..])
  }

  /** The number of replacements `str_replace` performs (its `$count`). */
  function ReplaceCount(search: string, subject: string): nat
    decreases |subject|
  {
    if |search| == 0 || |subject| < |search| then 0
    else if subject[..|search|] == search then 1 + ReplaceCount(search, subject[|search|..])
    else ReplaceCount(search, subject[1..])
  }

  /** Every replacement changes the length by the difference between the
      replacement and the needle. */
  lemma {:induction false} StrReplaceLength(search: string, replace: string, subject: string)
    ensures |StrReplace(search, replace, subject)|
            == |subject| + ReplaceCount(search, subject) * (|replace| - |search|)
    decreases |subject|
  {
    if |search| == 0 || |subject| < |search| {
    } else if subject[..|search|] == search {
      StrReplaceLength(search, replace, subject[|search|..]);
      StrReplaceLengthStep(search, replace, subject);
    } else {
      StrReplaceLength(search, replace, subject[1..]);
    }
  }

  /** The step of `StrReplaceLength` where the subject starts with the
      needle. */
  lemma StrReplaceLengthStep(search: string, replace: string, subject: string)
    requires 0 < |search| <= |subject| && subject[..|search|] == search
    requires |StrReplace(search, replace, subject[|search|..])|
             == |subject[|search|..]| + ReplaceCount(search, subject[|search|..]) * (|replace| - |search|)
    ensures |StrReplace(search, replace, subject)|
            == |subject| + ReplaceCount(search, subject) * (|replace| - |search|)
  {
    var rest := subject[|search|..];
    assert |StrReplace(search, replace, subject)| == |replace| + |StrReplace(search, replace, rest)|;
    assert ReplaceCount(search, subject) == ReplaceCount(search, rest) + 1;
    LengthStep(|StrReplace(search, replace, subject)|, |StrReplace(search, replace, rest)|,
               |subject|, |rest|, |search|, |replace|, ReplaceCount(search, rest));
  }

  /** The arithmetic of that step: one more replacement changes the length
      by one more difference. */
  lemma LengthStep(whole: int, tail: int, subjectLength: int, restLength: int,
                   searchLength: int, replaceLength: int, c: int)
    requires whole == replaceLength + tail
    requires tail == restLength + c * (replaceLength - searchLength)
    requires subjectLength == searchLength + restLength
    ensures whole == subjectLength + (c + 1) * (replaceLength - searchLength)
  {
    Distribute(replaceLength - searchLength, c);
  }

  /** One more factor adds the multiplicand once more. */
  lemma Distribute(m: int, c: int)
    ensures m * c + m == m * (c + 1) == (c + 1) * m
  {
  }

  /** An occurrence in a string is either at its start or an occurrence in
      the string without its first character, shifted by one. */
  lemma OccursShift(needle: string, s: string)
    requires |s| > 0
    ensures Occurs(needle, s) <==> OccursAt(needle, s, 0) || Occurs(needle, s[1..])
  {
    forall j | 0 <= j && j + 1 + |needle| <= |s|
      ensures OccursAt(needle, s[1..], j) <==> OccursAt(needle, s, j + 1)
    {
      assert s[1..][j..j + |needle|] == s[j + 1..j + 1 + |needle|];
    }
    if Occurs(needle, s) {
      var i :| OccursAt(needle, s, i);
      if i > 0 {
        assert OccursAt(needle, s[1..], i - 1);
      }
    }
    if Occurs(needle, s[1..]) {
      var j :| OccursAt(needle, s[1..], j);
      assert OccursAt(needle, s, j + 1);
    }
  }

  /** `str_replace` replaces something exactly when the needle occurs. */
  lemma {:induction false} ReplaceCountPositiveIffOccurs(search: string, subject: string)
    requires |search| > 0
    ensures ReplaceCount(search, subject) > 0 <==> Occurs(search, subject)
    decreases |subject|
  {
    if |subject| < |search| {
      assert forall i :: !OccursAt(search, subject, i);
    } else if subject[..|search|] == search {
      assert OccursAt(search, subject, 0);
    } else {
      ReplaceCountPositiveIffOccurs(search, subject[1..]);
      OccursShift(search, subject);
    }
  }

  /** A needle that does not occur leaves the subject untouched. */
  lemma {:induction false} StrReplaceAbsent(search: string, replace: string, subject: string)
    requires !Occurs(search, subject)
    ensures StrReplace(search, replace, subject) == subject
    decreases |subject|
  {
    if |search| == 0 || |subject| < |search| {
    } else {
      assert !OccursAt(search, subject, 0);
      OccursShift(search, subject);
      StrReplaceAbsent(search, replace, subject[1..]);
      assert [subject[0]] + subject[1..] == subject;
    }
  }

  /** A string that does not contain `part` cannot contain any needle that
      has `part` inside it. */
  lemma AbsentPartExcludesWhole(part: string, needle: string, offset: int, s: string)
    requires OccursAt(part, needle, offset)
    requires !Occurs(part, s)
    ensures !Occurs(needle, s)
  {
    forall i | 0 <= i && i + |needle| <= |s| ensures !OccursAt(needle, s, i) {
      var j := i + offset;
      assert !OccursAt(part, s, j);
      assert s[i..i + |needle|][offset..offset + |part|] == s[j..j + |part|];
    }
  }

  /** A needle with no occurrence on either side of a join and none across
      the seam does not occur in the concatenation. */
  lemma AbsentFromConcat(needle: string, a: string, b: string)
    requires !Occurs(needle, a) && !Occurs(needle, b)
    requires forall i :: 0 <= i < |a| < i + |needle| ==> !OccursAt(needle, a + b, i)
    ensures !Occurs(needle, a + b)
  {
    forall i | 0 <= i && i + |needle| <= |a + b| ensures !OccursAt(needle, a + b, i) {
      if i + |needle| <= |a| {
        assert (a + b)[i..i + |needle|] == a[i..i + |needle|];
        assert !OccursAt(needle, a, i);
      } else if |a| <= i {
        assert (a + b)[i..i + |needle|] == b[i - |a|..i - |a| + |needle|];
        assert !OccursAt(needle, b, i - |a|);
      }
    }
  }

  /** `implode($sep, $parts)` for a non-empty list of parts. */
  function Join(parts: seq<string>, sep: string): string
    requires |parts| > 0
  {
    if |parts| == 1 then parts[0] else parts[0] + sep + Join(parts[1..], sep)
  }

  /** The needle's first character does not occur again inside it, so an
      occurrence can never begin inside an earlier, partial occurrence. */
  predicate HeadUnique(needle: string) {
    |needle| > 0 && needle[0] !in needle[1..]
  }

  /** No proper suffix of the needle is also a prefix of it: an occurrence
      can never begin inside an earlier, partial occurrence. */
  predicate Unbordered(needle: string) {
    |needle| > 0 && forall k :: 0 < k < |needle| ==> needle[k..] != needle[..|needle| - k]
  }

  lemma HeadUniqueUnbordered(needle: string)
    requires HeadUnique(needle)
    ensures Unbordered(needle)
  {
    forall k | 0 < k < |needle| ensures needle[k..] != needle[..|needle| - k] {
      assert needle[1..][k - 1] == needle[k];
      assert needle[k..][0] != needle[..|needle| - k][0];
    }
  }

  /** Scanning past a stretch that holds no needle reaches the needle that
      follows it intact. */
  lemma {:induction false} StrReplaceAfterClean(search: string, replace: string, p: string, rest: string)
    requires Unbordered(search)
    requires !Occurs(search, p)
    ensures StrReplace(search, replace, p + search + rest) == p + replace + StrReplace(search, replace, rest)
    decreases |p|
  {
    var s := p + search + rest;
    if p == [] {
      assert s == search + rest;
      assert s[..|search|] == search;
      assert s[|search|..] == rest;
    } else {
      if |search| <= |p| {
        assert s[..|search|] == p[0..|search|];
        assert !OccursAt(search, p, 0);
      } else {
        var k := |p|;
        assert s[..|search|][k..] == search[..|search| - k];
        assert search[k..] != search[..|search| - k];
        assert s[..|search|][k..] != search[k..];
      }
      assert s[..|search|] != search;
      OccursShift(search, p);
      StrReplaceAfterClean(search, replace, p[1..], rest);
      assert s[1..] == p[1..] + search + rest;
      assert [s[0]] + (p[1..] + replace + StrReplace(search, replace, rest))
             == p + replace + StrReplace(search, replace, rest);
    }
  }

  /** Replacing an unbordered needle in text made of needle-free parts
      joined by that needle swaps every separator and touches nothing else. */
  lemma {:induction false} StrReplaceJoin(search: string, replace: string, parts: seq<string>)
    requires |parts| > 0 && Unbordered(search)
    requires forall k :: 0 <= k < |parts| ==> !Occurs(search, parts[k])
    ensures StrReplace(search, replace, Join(parts, search)) == Join(parts, replace)
  {
    if |parts| == 1 {
      StrReplaceAbsent(search, replace, parts[0]);
    } else {
      StrReplaceJoin(search, replace, parts[1..]);
      StrReplaceAfterClean(search, replace, parts[0], Join(parts[1..], search));
    }
  }

  /** Joining needle-free parts with a separator that can neither contain the
      needle nor start or finish an occurrence across a seam yields text that
      holds no needle. */
  lemma {:induction false} AbsentFromJoin(needle: string, sep: string, parts: seq<string>)
    requires |parts| > 0 && |needle| > 0 && |sep| >= |needle|
    requires sep[0] !in needle[1..] && needle[0] !in sep[1..]
    requires !Occurs(needle, sep)
    requires forall k :: 0 <= k < |parts| ==> !Occurs(needle, parts[k])
    ensures !Occurs(needle, Join(parts, sep))
  {
    if |parts| > 1 {
      var tail := Join(parts[1..], sep);
      AbsentFromJoin(needle, sep, parts[1..]);
      forall i | 0 <= i && i < |sep| && |sep| < i + |needle|
        ensures !OccursAt(needle, sep + tail, i)
      {
        assert sep[1..][i - 1] == sep[i];
        if i + |needle| <= |sep + tail| {
          assert (sep + tail)[i..i + |needle|][0] == sep[i];
        }
      }
      AbsentFromConcat(needle, sep, tail);
      var p := parts[0];
      forall i | 0 <= i && i < |p| && |p| < i + |needle|
        ensures !OccursAt(needle, p + (sep + tail), i)
      {
        var k := |p| - i;
        assert needle[1..][k - 1] == needle[k];
        if i + |needle| <= |p + (sep + tail)| {
          assert (p + (sep + tail))[i..i + |needle|][k] == sep[0];
        }
      }
      AbsentFromConcat(needle, p, sep + tail);
      assert Join(parts, sep) == p + (sep + tail);
    }
  }

  /** One needle/replacement pair of a `str_replace` call with array
      arguments. */
  datatype Rewrite = Rewrite(search: string, replace: string)

  /** `str_replace($searches, $replaces, $subject)`: each pair is applied, in
      array order, to the result of the previous one. */
  function ApplyAll(rewrites: seq<Rewrite>, subject: string): string
  {
    if rewrites == [] then subject
    else ApplyAll(rewrites[1..], StrReplace(rewrites[0].search, rewrites[0].replace, subject))
  }

  /** Some pair of the chain finds its needle in the text it is applied to. */
  ghost predicate AnyFires(rewrites: seq<Rewrite>, subject: string) {
    rewrites != [] &&
    (Occurs(rewrites[0].search, subject) ||
     AnyFires(rewrites[1..], StrReplace(rewrites[0].search, rewrites[0].replace, subject)))
  }

  /** Every replacement is strictly longer than its (non-empty) needle. */
  predicate Growing(rewrites: seq<Rewrite>) {
    forall k :: 0 <= k < |rewrites| ==>
      0 < |rewrites[k].search| < |rewrites[k].replace|
  }

  /** Every replacement is strictly shorter than its (non-empty) needle. */
  predicate Shrinking(rewrites: seq<Rewrite>) {
    forall k :: 0 <= k < |rewrites| ==>
      |rewrites[k].replace| < |rewrites[k].search|
  }

  /** A positive number of equal changes adds up to at least one change of
      the same sign. */
  lemma AtLeastOnce(count: nat, delta: int)
    requires count > 0
    ensures delta > 0 ==> count * delta >= delta
    ensures delta < 0 ==> count * delta <= delta
  {
  }

  /** One call of `str_replace` with a growing pair: the text gets longer
      exactly when the needle occurs, and is untouched otherwise. */
  lemma StrReplaceGrows(search: string, replace: string, subject: string)
    requires 0 < |search| < |replace|
    ensures Occurs(search, subject) ==> |StrReplace(search, replace, subject)| > |subject|
    ensures !Occurs(search, subject) ==> StrReplace(search, replace, subject) == subject
  {
    StrReplaceLength(search, replace, subject);
    ReplaceCountPositiveIffOccurs(search, subject);
    if !Occurs(search, subject) {
      StrReplaceAbsent(search, replace, subject);
    } else {
      AtLeastOnce(ReplaceCount(search, subject), |replace| - |search|);
    }
  }

  /** One call of `str_replace` with a shrinking pair: the text gets shorter
      exactly when the needle occurs, and is untouched otherwise. */
  lemma StrReplaceShrinks(search: string, replace: string, subject: string)
    requires |replace| < |search|
    ensures Occurs(search, subject) ==> |StrReplace(search, replace, subject)| < |subject|
    ensures !Occurs(search, subject) ==> StrReplace(search, replace, subject) == subject
  {
    StrReplaceLength(search, replace, subject);
    ReplaceCountPositiveIffOccurs(search, subject);
    if !Occurs(search, subject) {
      StrReplaceAbsent(search, replace, subject);
    } else {
      AtLeastOnce(ReplaceCount(search, subject), |replace| - |search|);
    }
  }

  /** A chain of growing pairs never shortens its subject; it lengthens it
      whenever some pair fires and returns it unchanged otherwise. */
  lemma {:induction false} ApplyAllGrowing(rewrites: seq<Rewrite>, subject: string)
    requires Growing(rewrites)
    ensures |ApplyAll(rewrites, subject)| >= |subject|
    ensures AnyFires(rewrites, subject) ==> |ApplyAll(rewrites, subject)| > |subject|
    ensures !AnyFires(rewrites, subject) ==> ApplyAll(rewrites, subject) == subject
  {
    if rewrites != [] {
      var r := rewrites[0];
      StrReplaceGrows(r.search, r.replace, subject);
      assert Growing(rewrites[1..]) by {
        forall k | 0 <= k < |rewrites[1..]|
          ensures 0 < |rewrites[1..][k].search| < |rewrites[1..][k].replace|
        {
          assert rewrites[1..][k] == rewrites[k + 1];
        }
      }
      ApplyAllGrowing(rewrites[1..], StrReplace(r.search, r.replace, subject));
    }
  }

  /** A chain of shrinking pairs never lengthens its subject; it shortens it
      whenever some pair fires and returns it unchanged otherwise. */
  lemma {:induction false} ApplyAllShrinking(rewrites: seq<Rewrite>, subject: string)
    requires Shrinking(rewrites)
    ensures |ApplyAll(rewrites, subject)| <= |subject|
    ensures AnyFires(rewrites, subject) ==> |ApplyAll(rewrites, subject)| < |subject|
    ensures !AnyFires(rewrites, subject) ==> ApplyAll(rewrites, subject) == subject
  {
    if rewrites != [] {
      var r := rewrites[0];
      StrReplaceShrinks(r.search, r.replace, subject);
      assert Shrinking(rewrites[1..]) by {
        forall k | 0 <= k < |rewrites[1..]|
          ensures |rewrites[1..][k].replace| < |rewrites[1..][k].search|
        {
          assert rewrites[1..][k] == rewrites[k + 1];
        }
      }
      ApplyAllShrinking(rewrites[1..], StrReplace(r.search, r.replace, subject));
    }
  }

  /** Applying a chain that is split in two is applying the first half and
      then the second. */
  lemma {:induction false} ApplyAllAppend(a: seq<Rewrite>, b: seq<Rewrite>, subject: string)
    ensures ApplyAll(a + b, subject) == ApplyAll(b, ApplyAll(a, subject))
  {
    if a != [] {
      assert (a + b)[1..] == a[1..] + b;
      ApplyAllAppend(a[1..], b, StrReplace(a[0].search, a[0].replace, subject));
    } else {
      assert a + b == b;
    }
  }

  /** A chain whose every needle contains `marker` leaves text that does not
      contain `marker` untouched. */
  lemma {:induction false} ApplyAllUntouched(rewrites: seq<Rewrite>, marker: string, subject: string)
    requires forall k :: 0 <= k < |rewrites| ==> Occurs(marker, rewrites[k].search)
    requires !Occurs(marker, subject)
    ensures ApplyAll(rewrites, subject) == subject
  {
    if rewrites != [] {
      var r := rewrites[0];
      var offset :| OccursAt(marker, r.search, offset);
      AbsentPartExcludesWhole(marker, r.search, offset, subject);
      StrReplaceAbsent(r.search, r.replace, subject);
      forall k | 0 <= k < |rewrites[1..]| ensures Occurs(marker, rewrites[1..][k].search) {
        assert rewrites[1..][k] == rewrites[k + 1];
      }
      ApplyAllUntouched(rewrites[1..], marker, subject);
    }
  }

  // ---------------------------------------------------------------------------
  // array_values(array_unique($list, SORT_STRING))
  // ---------------------------------------------------------------------------

  /** No string occurs twice. */
  predicate NoDuplicates(s: seq<string>) {
    forall i, j :: 0 <= i < j < |s| ==> s[i] != s[j]
  }

  /** `array_values(array_unique($s, SORT_STRING))`: each string is kept at its
      first occurrence and later copies are dropped; the comparison is exact,
      so strings that differ only in case are both kept. */
  function ArrayUnique(s: seq<string>): seq<string>
  {
    if s == [] then []
    else
      var kept := ArrayUnique(s[..|s| - 1]);
      if s[|s| - 1] in kept then kept else kept + [s[|s| - 1]]
  }

  /** The index of the first occurrence of `x` in `s`. */
  function FirstIndex(s: seq<string>, x: string): (i: nat)
    requires x in s
    ensures i < |s| && s[i] == x && x !in s[..i]
  {
    if s[0] == x then 0
    else
      var j := FirstIndex(s[1..], x);
      assert s[..j + 1] == [s[0]] + s[1..][..j];
      j + 1
  }

  /** Only one index is the first occurrence. */
  lemma FirstIndexUnique(s: seq<string>, x: string, i: nat)
    requires i < |s| && s[i] == x && x !in s[..i]
    ensures FirstIndex(s, x) == i
  {
    var f := FirstIndex(s, x);
    forall j | 0 <= j < i ensures s[j] != x {
      assert s[..i][j] == s[j];
    }
    forall j | 0 <= j < f ensures s[j] != x {
      assert s[..f][j] == s[j];
    }
  }

  /** Appending to a list does not move the first occurrence of anything that
      was already in it. */
  lemma FirstIndexSnoc(s: seq<string>, y: string, x: string)
    requires x in s
    ensures FirstIndex(s + [y], x) == FirstIndex(s, x)
  {
    var f := FirstIndex(s, x);
    assert (s + [y])[..f] == s[..f];
    FirstIndexUnique(s + [y], x, f);
  }

  /** `array_unique` keeps every string exactly once, keeps nothing else, and
      keeps the strings in the order of their first occurrence. */
  lemma {:induction false} ArrayUniqueSpec(s: seq<string>)
    ensures NoDuplicates(ArrayUnique(s))
    ensures forall x :: x in ArrayUnique(s) <==> x in s
    ensures forall i, j :: 0 <= i < j < |ArrayUnique(s)| ==>
              FirstIndex(s, ArrayUnique(s)[i]) < FirstIndex(s, ArrayUnique(s)[j])
  {
    if s != [] {
      var init := s[..|s| - 1];
      var last := s[|s| - 1];
      var kept := ArrayUnique(init);
      ArrayUniqueSpec(init);
      assert s == init + [last];
      forall x | x in init ensures FirstIndex(s, x) == FirstIndex(init, x) {
        FirstIndexSnoc(init, last, x);
      }
      if last !in kept {
        assert last !in init;
        FirstIndexUnique(s, last, |init|);
        var d := kept + [last];
        forall i, j | 0 <= i < j < |d| ensures FirstIndex(s, d[i]) < FirstIndex(s, d[j]) {
          if j == |kept| {
            assert d[i] in init;
          }
        }
      }
    }
  }

  /** On a list that already has no duplicates `array_unique` changes nothing,
      so applying it twice is the same as once. */
  lemma {:induction false} ArrayUniqueIdentity(s: seq<string>)
    requires NoDuplicates(s)
    ensures ArrayUnique(s) == s
  {
    if s != [] {
      var init := s[..|s| - 1];
      ArrayUniqueIdentity(init);
      ArrayUniqueSpec(init);
      assert s == init + [s[|s| - 1]];
    }
  }
}
