/**
 * The pure string logic of storage/gcs_client.py: the `.pdf` suffix filter of
 * `list_pdfs` (over a listing given as a sequence of blob names) and
 * `make_output_path`, which names the image of one page of a source PDF.
 */
module GcsClient {
  import opened Wrappers

  predicate StartsWith(s: string, prefix: string) {
    |prefix| <= |s| && s[..|prefix|] == prefix
  }

  predicate EndsWith(s: string, suffix: string) {
    |suffix| <= |s| && s[|s| - |suffix|..] == suffix
  }

  lemma ConcatStartsWith(a: string, b: string)
    ensures StartsWith(a + b, a)
  {
    assert (a + b)[..|a|] == a;
  }

  lemma ConcatEndsWith(a: string, b: string)
    ensures EndsWith(a + b, b)
  {
    assert (a + b)[|a|..] == b;
  }

  /** `str.lower()` on ASCII letters; other characters are kept. */
  function LowerChar(c: char): char {
    if 'A' <= c <= 'Z' then (c as int + 32) as char else c
  }

  function Lower(s: string): (r: string)
    ensures |r| == |s|
    ensures forall i :: 0 <= i < |s| ==> r[i] == LowerChar(s[i])
  {
    seq(|s|, i requires 0 <= i < |s| => LowerChar(s[i]))
  }

  /** The test `blob.name.lower().endswith(".pdf")`. */
  predicate IsPdfName(name: string) {
    EndsWith(Lower(name), ".pdf")
  }

  /** Lower-casing twice is lower-casing once. */
  lemma LowerIdempotent(s: string)
    ensures Lower(Lower(s)) == Lower(s)
  {
  }

  /** The suffix test ignores the case of the name: a name passes exactly when its lower-cased form does. */
  lemma IsPdfNameIgnoresCase(s: string)
    ensures IsPdfName(Lower(s)) <==> IsPdfName(s)
  {
    LowerIdempotent(s);
  }

  /** "report.PDF" and "report.Pdf" pass like "report.pdf"; "report.pdf.txt" and a bare "pdf" do not. */
  lemma PdfSuffixExamples()
    ensures IsPdfName("report.PDF") && IsPdfName("report.Pdf") && IsPdfName("report.pdf")
    ensures !IsPdfName("report.pdf.txt") && !IsPdfName("pdf")
  {
    assert Lower("report.PDF") == "report.pdf";
    assert Lower("report.Pdf") == "report.pdf";
    assert Lower("report.pdf") == "report.pdf";
    assert Lower("report.pdf.txt")[10..] == ".txt";
  }

  /** `list_pdfs`: the names of the listing that pass the suffix test, in listing order. */
  function ListPdfs(names: seq<string>): (r: seq<string>)
    ensures |r| <= |names|
    ensures forall x :: x in r <==> x in names && IsPdfName(x)
  {
    if names == [] then []
    else if IsPdfName(names[0]) then [names[0]] + ListPdfs(names[1..])
    else ListPdfs(names[1..])
  }

  /** Filtering commutes with concatenation, so the kept names stay in listing order. */
  lemma {:induction false} ListPdfsAppend(a: seq<string>, b: seq<string>)
    ensures ListPdfs(a + b) == ListPdfs(a) + ListPdfs(b)
  {
    if a == [] {
      assert a + b == b;
    } else {
      assert (a + b)[1..] == a[1..] + b;
      ListPdfsAppend(a[1..], b);
    }
  }

  /** Position of the last occurrence of `c` in `s`. */
  function LastIndexOf(s: string, c: char): (r: Option<nat>)
    ensures r.Some? ==> r.value < |s| && s[r.value] == c && c !in s[r.value + 1..]
    ensures r.None? <==> c !in s
  {
    if |s| == 0 then None
    else if s[|s| - 1] == c then Some(|s| - 1)
    else
      var r := LastIndexOf(s[..|s| - 1], c);
      assert r.Some? ==> s[r.value + 1..] == s[..|s| - 1][r.value + 1..] + [s[|s| - 1]];
      r
  }

  /** The result of `s.rsplit(sep, 1)`: one part when `sep` does not occur, else head and tail. */
  datatype Parts = Parts(head: Option<string>, tail: string)

  function RSplitOnce(s: string, sep: char): (p: Parts)
    ensures p.head.None? <==> sep !in s
    ensures p.head.None? ==> p.tail == s
    ensures p.head.Some? ==> s == p.head.value + [sep] + p.tail && sep !in p.tail
  {
    match LastIndexOf(s, sep)
    case None => Parts(None, s)
    case Some(i) =>
      assert s == s[..i] + [sep] + s[i + 1..];
      Parts(Some(s[..i]), s[i + 1..])
  }

  function DigitChar(d: nat): char
    requires d < 10
  {
    ('0' as int + d) as char
  }

  predicate AllDigits(s: string) {
    forall i :: 0 <= i < |s| ==> '0' <= s[i] <= '9'
  }

  /** `int(s)` for a string of decimal digits. */
  function DigitsValue(s: string): nat
    requires AllDigits(s)
  {
    if s == [] then 0 else DigitsValue(s[..|s| - 1]) * 10 + (s[|s| - 1] as int - '0' as int)
  }

  /** `str(n)` for a non-negative integer. */
  function Digits(n: nat): (r: string)
    ensures |r| >= 1 && AllDigits(r)
    ensures DigitsValue(r) == n
  {
    if n < 10 then [DigitChar(n)]
    else
      var r := Digits(n / 10) + [DigitChar(n % 10)];
      assert r[..|r| - 1] == Digits(n / 10);
      r
  }

  function Zeros(k: nat): (r: string)
    ensures |r| == k && forall i :: 0 <= i < k ==> r[i] == '0'
  {
    seq(k, i => '0')
  }

  /** Padding with leading zeros to `width` characters; longer strings are kept. */
  function ZeroPad(s: string, width: nat): (r: string)
    ensures |r| == if |s| < width then width else |s|
    ensures r[|r| - |s|..] == s
    ensures forall i :: 0 <= i < |r| - |s| ==> r[i] == '0'
  {
    if |s| < width then Zeros(width - |s|) + s else s
  }

  /** Python's `f"{n:05d}"`: the sign first, then zeros up to a total width of 5. */
  function Format05d(n: int): (r: string)
    ensures n >= 0 ==> AllDigits(r)
    ensures n < 0 ==> |r| >= 1 && r[0] == '-' && AllDigits(r[1..])
    ensures '/' !in r
  {
    if n < 0 then "-" + ZeroPad(Digits(-n), 4) else ZeroPad(Digits(n), 5)
  }

  function Pow10(k: nat): nat {
    if k == 0 then 1 else 10 * Pow10(k - 1)
  }

  lemma {:induction false} DigitsLength(n: nat, k: nat)
    requires 1 <= k && n < Pow10(k)
    ensures |Digits(n)| <= k
  {
    if n >= 10 {
      assert k >= 2;
      DigitsLength(n / 10, k - 1);
    }
  }

  lemma {:induction false} LeadingZerosValue(k: nat, s: string)
    requires AllDigits(s)
    ensures AllDigits(Zeros(k) + s) && DigitsValue(Zeros(k) + s) == DigitsValue(s)
  {
    if s == [] {
      ZerosValue(k);
      assert Zeros(k) + s == Zeros(k);
    } else {
      var t := Zeros(k) + s;
      assert t[..|t| - 1] == Zeros(k) + s[..|s| - 1];
      LeadingZerosValue(k, s[..|s| - 1]);
    }
  }

  lemma {:induction false} ZerosValue(k: nat)
    ensures AllDigits(Zeros(k)) && DigitsValue(Zeros(k)) == 0
  {
    if k > 0 {
      assert Zeros(k)[..k - 1] == Zeros(k - 1);
      ZerosValue(k - 1);
    }
  }

  /** For 0 <= n < 100000 the page field is exactly five digits and reads back as `n`. */
  lemma Format05dRoundTrip(n: int)
    requires 0 <= n < 100000
    ensures |Format05d(n)| == 5 && AllDigits(Format05d(n))
    ensures DigitsValue(Format05d(n)) == n
  {
    assert Pow10(5) == 100000;
    DigitsLength(n, 5);
    var d := Digits(n);
    if |d| < 5 {
      LeadingZerosValue(5 - |d|, d);
    }
  }

  /** The directory part `dirs`: everything before the last "/", or "" when there is none. */
  function DirPart(src: string): (r: string)
    ensures '/' in src ==> src == r + "/" + FileName(src)
    ensures '/' !in src ==> r == ""
  {
    RSplitOnce(src, '/').head.GetOr("")
  }

  /** The file name: everything after the last "/". */
  function FileName(src: string): (r: string)
    ensures '/' !in r
    ensures '/' !in src ==> r == src
  {
    RSplitOnce(src, '/').tail
  }

  /** `filename.rsplit(".", 1)[0]`: the name up to its last ".", or the whole name. */
  function BaseName(filename: string): (r: string)
    ensures '.' !in filename ==> r == filename
    ensures '.' in filename ==> |r| < |filename| && filename[..|r| + 1] == r + "." && '.' !in filename[|r| + 1..]
  {
    var p := RSplitOnce(filename, '.');
    match p.head
    case None => p.tail
    case Some(h) =>
      assert filename == (h + ".") + p.tail;
      assert filename[|h| + 1..] == p.tail;
      h
  }

  /** The folder the page images go to: `dirs/base`, or `base` alone when `dirs` is empty. */
  function OutputFolder(src: string): string {
    var base := BaseName(FileName(src));
    if DirPart(src) != "" then DirPart(src) + "/" + base else base
  }

  /**
   * `make_output_path(src, page_num)`: the image goes into the output folder, and
   * its file name is the source's base name, "-page-", the padded page number and ".png".
   */
  function MakeOutputPath(src: string, pageNum: int): (r: string)
    ensures DirPart(r) == OutputFolder(src)
    ensures FileName(r) == BaseName(FileName(src)) + "-page-" + Format05d(pageNum) + ".png"
    ensures r == OutputFolder(src) + "/" + FileName(r)
  {
    var name := BaseName(FileName(src)) + "-page-" + Format05d(pageNum) + ".png";
    PageFileNameNoSlash(src, pageNum);
    SplitAtLastSlash(OutputFolder(src), name);
    OutputFolder(src) + "/" + name
  }

  lemma PageFileNameNoSlash(src: string, pageNum: int)
    ensures '/' !in BaseName(FileName(src)) + "-page-" + Format05d(pageNum) + ".png"
  {
    BaseNameNoSlash(FileName(src));
    PageNameNoSlash(BaseName(FileName(src)), Format05d(pageNum));
  }

  lemma PageNameNoSlash(b: string, f: string)
    requires '/' !in b && '/' !in f
    ensures '/' !in b + "-page-" + f + ".png"
  {
    NoSlashConcat(b, "-page-");
    NoSlashConcat(b + "-page-", f);
    NoSlashConcat(b + "-page-" + f, ".png");
  }

  lemma NoSlashConcat(a: string, b: string)
    requires '/' !in a && '/' !in b
    ensures '/' !in a + b
  {
  }

  lemma BaseNameNoSlash(filename: string)
    requires '/' !in filename
    ensures '/' !in BaseName(filename)
  {
    var b := BaseName(filename);
    if '.' in filename {
      assert b == filename[..|b|];
    }
  }

  /** Splitting at the last "/" undoes a join whose tail has no "/". */
  lemma SplitAtLastSlash(a: string, t: string)
    requires '/' !in t
    ensures DirPart(a + "/" + t) == a && FileName(a + "/" + t) == t
  {
    var s := a + "/" + t;
    assert s[|a|] == '/';
    var h, f := DirPart(s), FileName(s);
    assert s == h + "/" + f;
    assert h == s[..|a|] == a;
    assert f == s[|a| + 1..] == t;
  }

  /** The folder is the source directory followed by the base name, with no leading "/" when there is no directory. */
  lemma OutputFolderShape(src: string)
    ensures DirPart(src) != "" ==> StartsWith(OutputFolder(src), DirPart(src) + "/")
    ensures DirPart(src) == "" ==> OutputFolder(src) == BaseName(FileName(src))
  {
    if DirPart(src) != "" {
      ConcatStartsWith(DirPart(src) + "/", BaseName(FileName(src)));
    }
  }

  /** Distinct page numbers in range give distinct image paths for one source. */
  lemma MakeOutputPathInjective(src: string, m: int, n: int)
    requires 0 <= m < 100000 && 0 <= n < 100000 && m != n
    ensures MakeOutputPath(src, m) != MakeOutputPath(src, n)
  {
    Format05dRoundTrip(m);
    Format05dRoundTrip(n);
    var prefix := BaseName(FileName(src)) + "-page-";
    var a, b := FileName(MakeOutputPath(src, m)), FileName(MakeOutputPath(src, n));
    assert a[|prefix|..|prefix| + 5] == Format05d(m);
    assert b[|prefix|..|prefix| + 5] == Format05d(n);
  }

}
