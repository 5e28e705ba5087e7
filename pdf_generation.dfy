/**
 * The php-scoper patcher for Dompdf (`pdf-generation.inc.php`): one
 * `str_replace` with four needle/replacement pairs that adds the scoping
 * prefix to the `Dompdf\` namespace where it appears at the start of a
 * quoted string, with a single or a doubled backslash separator.
 *
 * The PHP literals of the source, once unescaped, are:
 *
 *   needle          replacement
 *   "Dompdf\        "P\\Dompdf\
 *   'Dompdf\        'P\\Dompdf\
 *   "\\Dompdf\      "\\P\\Dompdf\
 *   '\\Dompdf\      '\\P\\Dompdf\
 *
 * where P is the prefix; below they are written as Dafny string literals, in
 * which every backslash is doubled again. The Finder list of the same file
 * is configuration data and is not part of this model.
 */
module PdfGenerationScoper {
  import opened PhpBuiltins

  /** The four pairs, in the order `str_replace` applies them. */
  function PdfRewrites(prefix: string): seq<Rewrite> {
    [
      Rewrite("\"Dompdf\\", "\"" + prefix + "\\\\Dompdf\\"),
      Rewrite("'Dompdf\\", "'" + prefix + "\\\\Dompdf\\"),
      Rewrite("\"\\\\Dompdf\\", "\"\\\\" + prefix + "\\\\Dompdf\\"),
      Rewrite("'\\\\Dompdf\\", "'\\\\" + prefix + "\\\\Dompdf\\")
    ]
  }

  /** The patcher closure; the file path is not used. */
  function PdfPatch(filePath: string, prefix: string, content: string): string {
    ApplyAll(PdfRewrites(prefix), content)
  }

  /** Every needle is non-empty and shorter than its replacement, even for
      an empty prefix, and contains `Dompdf\`. */
  lemma PdfRewritesShape(prefix: string)
    ensures Growing(PdfRewrites(prefix))
    ensures forall k :: 0 <= k < |PdfRewrites(prefix)| ==> Occurs("Dompdf\\", PdfRewrites(prefix)[k].search)
  {
    var rs := PdfRewrites(prefix);
    var marker := "Dompdf\\";
    assert rs[0].search[1..] == marker;
    assert OccursAt(marker, rs[0].search, 1);
    assert rs[1].search[1..] == marker;
    assert OccursAt(marker, rs[1].search, 1);
    assert rs[2].search[3..] == marker;
    assert OccursAt(marker, rs[2].search, 3);
    assert rs[3].search[3..] == marker;
    assert OccursAt(marker, rs[3].search, 3);
  }

  /** The patcher only ever inserts text: the file never shrinks, it grows
      whenever some pair finds its needle, and it is returned unchanged
      otherwise. */
  lemma PdfPatchGrows(filePath: string, prefix: string, content: string)
    ensures |PdfPatch(filePath, prefix, content)| >= |content|
    ensures AnyFires(PdfRewrites(prefix), content) ==> |PdfPatch(filePath, prefix, content)| > |content|
    ensures !AnyFires(PdfRewrites(prefix), content) ==> PdfPatch(filePath, prefix, content) == content
  {
    PdfRewritesShape(prefix);
    ApplyAllGrowing(PdfRewrites(prefix), content);
  }

  /** A file that never mentions `Dompdf\` is left as it is. */
  lemma PdfPatchNeedsDompdf(filePath: string, prefix: string, content: string)
    requires !Occurs("Dompdf\\", content)
    ensures PdfPatch(filePath, prefix, content) == content
  {
    PdfRewritesShape(prefix);
    ApplyAllUntouched(PdfRewrites(prefix), "Dompdf\\", content);
  }

  /** A needle whose first character does not appear in `s` does not occur
      in it. */
  lemma FirstCharAbsent(needle: string, s: string)
    requires |needle| > 0 && needle[0] !in s
    ensures !Occurs(needle, s)
  {
    forall i | 0 <= i && i + |needle| <= |s| ensures !OccursAt(needle, s, i) {
      assert s[i..i + |needle|][0] == s[i];
    }
  }

  /** `str_replace` with four pairs is four calls in a row. */
  lemma ApplyFour(rs: seq<Rewrite>, subject: string)
    requires |rs| == 4
    ensures ApplyAll(rs, subject)
            == StrReplace(rs[3].search, rs[3].replace,
                 StrReplace(rs[2].search, rs[2].replace,
                   StrReplace(rs[1].search, rs[1].replace,
                     StrReplace(rs[0].search, rs[0].replace, subject))))
  {
    var s1 := StrReplace(rs[0].search, rs[0].replace, subject);
    var s2 := StrReplace(rs[1].search, rs[1].replace, s1);
    var s3 := StrReplace(rs[2].search, rs[2].replace, s2);
    var s4 := StrReplace(rs[3].search, rs[3].replace, s3);
    var t := rs[1..];
    assert t[0] == rs[1] && t[1..][0] == rs[2] && t[1..][1..][0] == rs[3];
    assert t[1..][1..][1..] == [];
    assert ApplyAll(t[1..][1..][1..], s4) == s4;
    assert ApplyAll(t[1..][1..], s3) == s4;
    assert ApplyAll(t[1..], s2) == s4;
    assert ApplyAll(t, s1) == s4;
  }

  /** A subject that is exactly the needle becomes exactly the replacement. */
  lemma StrReplaceWhole(search: string, replace: string)
    requires |search| > 0
    ensures StrReplace(search, replace, search) == replace
  {
    assert search[..|search|] == search;
    assert search[|search|..] == "";
  }

  /** The text the first pair inserts holds no single quote, no double quote
      after its first character, and no occurrence of the third needle. */
  lemma DoubleQuotedSeparator(prefix: string)
    requires |prefix| > 0 && prefix[0] != '\\' && '"' !in prefix && '\'' !in prefix
    ensures var sep := PdfRewrites(prefix)[0].replace;
            '\'' !in sep && '"' !in sep[1..] && !Occurs(PdfRewrites(prefix)[2].search, sep)
  {
    var sep := PdfRewrites(prefix)[0].replace;
    var n3 := PdfRewrites(prefix)[2].search;
    forall i | 0 <= i < |sep| ensures sep[i] != '\'' && (i > 0 ==> sep[i] != '"') {
      if 1 <= i < 1 + |prefix| {
        assert sep[i] == prefix[i - 1];
      }
    }
    assert '"' !in sep[1..] by {
      forall i | 0 <= i < |sep[1..]| ensures sep[1..][i] != '"' {
        assert sep[1..][i] == sep[i + 1];
      }
    }
    forall i | 0 <= i && i + |n3| <= |sep| ensures !OccursAt(n3, sep, i) {
      if i == 0 {
        assert sep[..|n3|][1] == prefix[0];
        assert n3[1] == '\\';
      } else {
        assert sep[i..i + |n3|][0] == sep[i];
      }
    }
  }

  /** Double-quoted class names: in a file made of stretches that hold none
      of the four needles, joined by `"Dompdf\`, every such name gains the
      prefix and nothing else changes, provided the prefix is non-empty,
      does not start with a backslash and holds no quote. The later pairs
      do not fire again on the text the first one inserted. */
  lemma PdfPatchDoubleQuoted(filePath: string, prefix: string, parts: seq<string>)
    requires |parts| > 0
    requires |prefix| > 0 && prefix[0] != '\\' && '"' !in prefix && '\'' !in prefix
    requires forall k, j :: 0 <= k < |parts| && 0 <= j < 4 ==> !Occurs(PdfRewrites(prefix)[j].search, parts[k])
    ensures PdfPatch(filePath, prefix, Join(parts, "\"Dompdf\\")) == Join(parts, "\"" + prefix + "\\\\Dompdf\\")
  {
    var rs := PdfRewrites(prefix);
    var sep := rs[0].replace;
    var n1, n2, n3, n4 := rs[0].search, rs[1].search, rs[2].search, rs[3].search;
    forall k | 0 <= k < |parts|
      ensures !Occurs(n1, parts[k]) && !Occurs(n2, parts[k]) && !Occurs(n3, parts[k]) && !Occurs(n4, parts[k])
    {
      assert !Occurs(rs[0].search, parts[k]) && !Occurs(rs[1].search, parts[k]);
      assert !Occurs(rs[2].search, parts[k]) && !Occurs(rs[3].search, parts[k]);
    }
    assert HeadUnique(n1) by {
      assert n1[1..] == "Dompdf\\";
    }
    HeadUniqueUnbordered(n1);
    StrReplaceJoin(n1, sep, parts);
    var text := Join(parts, sep);
    DoubleQuotedSeparator(prefix);
    FirstCharAbsent(n2, sep);
    assert n2[1..] == "Dompdf\\";
    AbsentFromJoin(n2, sep, parts);
    assert n3[1..] == "\\\\Dompdf\\";
    AbsentFromJoin(n3, sep, parts);
    FirstCharAbsent(n4, sep);
    assert n4[1..] == "\\\\Dompdf\\";
    AbsentFromJoin(n4, sep, parts);
    StrReplaceAbsent(n2, rs[1].replace, text);
    StrReplaceAbsent(n3, rs[2].replace, text);
    StrReplaceAbsent(n4, rs[3].replace, text);
    ApplyFour(rs, Join(parts, n1));
  }

  /** With an empty prefix the first pair produces exactly the third pair's
      needle, which is then rewritten a second time: `"Dompdf\` ends up with
      four backslashes before `Dompdf`. */
  lemma PdfPatchEmptyPrefixCascade(filePath: string)
    ensures PdfPatch(filePath, "", "\"Dompdf\\") == "\"\\\\\\\\Dompdf\\"
  {
    var rs := PdfRewrites("");
    StrReplaceWhole(rs[0].search, rs[0].replace);
    var s1 := rs[0].replace;
    EmptyPrefixStrings();
    FirstCharAbsent(rs[1].search, s1);
    StrReplaceAbsent(rs[1].search, rs[1].replace, s1);
    StrReplaceWhole(rs[2].search, rs[2].replace);
    var s3 := rs[2].replace;
    FirstCharAbsent(rs[3].search, s3);
    StrReplaceAbsent(rs[3].search, rs[3].replace, s3);
    ApplyFour(rs, "\"Dompdf\\");
  }

  /** With an empty prefix, the first pair's replacement is the third pair's
      needle, and the third pair's replacement has four backslashes. */
  lemma EmptyPrefixStrings()
    ensures PdfRewrites("")[0].replace == PdfRewrites("")[2].search
    ensures PdfRewrites("")[2].replace == "\"\\\\\\\\Dompdf\\"
  {
  }
}
