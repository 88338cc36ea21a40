/** The object-storage bucket-name check (`is_valid_bucket_name`) and the
    default bucket name derived from the project slug (`get_bucket_name`).

    The check applies four tests in a fixed order and raises on the first one
    that fails. Beside it stands a reference rule stated directly on the
    characters of the name, without splitting it into labels, and the two are
    proved to agree error by error. */
module BucketNames {
  import opened Strings
  import opened Validators

  /** A character that may begin or end a label: `c.islower() or c.isdigit()`. */
  predicate IsLabelEdge(c: char) {
    IsLowerChar(c) || IsDigitChar(c)
  }

  /** The test the check's loop applies to each label. */
  predicate GoodLabel(part: string) {
    |part| >= 1 && IsLabelEdge(part[0]) && IsLabelEdge(part[|part| - 1])
  }

  /** The loop over the labels runs to its end without raising. */
  predicate EveryLabelGood(labels: seq<string>) {
    forall j :: 0 <= j < |labels| ==> GoodLabel(labels[j])
  }

  /** `all(s.isdigit() for s in labels)` */
  predicate EveryLabelDigits(labels: seq<string>) {
    forall j :: 0 <= j < |labels| ==> IsDigits(labels[j])
  }

  /** `is_valid_bucket_name`: `Pass` when the function returns, otherwise the
      error of the first test that fails. */
  function IsValidBucketName(name: string): Outcome {
    var labels := Split(name, '.');
    if |name| < 3 || |name| > 63 then Fail(LengthOutOfRange)
    else if Lower(name) != name || '_' in name then Fail(UppercaseOrUnderscore)
    else if !EveryLabelGood(labels) then Fail(BadLabelEdge)
    else if EveryLabelDigits(labels) then Fail(FormattedAsIpAddress)
    else Pass
  }

  // The naming rules, stated on characters.

  predicate LengthOk(s: string) {
    3 <= |s| <= 63
  }

  predicate NoUpperOrUnderscore(s: string) {
    forall i :: 0 <= i < |s| ==> !IsUpperChar(s[i]) && s[i] != '_'
  }

  /** The name starts and ends with a lower-case letter or digit, and so does
      the text on either side of every dot. */
  predicate DotsWellPlaced(s: string) {
    && |s| > 0
    && IsLabelEdge(s[0])
    && IsLabelEdge(s[|s| - 1])
    && forall i :: 0 <= i < |s| && s[i] == '.' ==>
         0 < i < |s| - 1 && IsLabelEdge(s[i - 1]) && IsLabelEdge(s[i + 1])
  }

  predicate DigitsAndDotsOnly(s: string) {
    forall i :: 0 <= i < |s| ==> IsDigitChar(s[i]) || s[i] == '.'
  }

  /** A bucket name the rules accept. */
  predicate IsS3BucketName(s: string) {
    LengthOk(s) && NoUpperOrUnderscore(s) && DotsWellPlaced(s) && !DigitsAndDotsOnly(s)
  }

  /** A good first label, a dot and a name whose dots are well placed make a
      name whose dots are well placed. */
  lemma DotsFromParts(a: string, b: string)
    requires '.' !in a && GoodLabel(a) && DotsWellPlaced(b)
    ensures DotsWellPlaced(a + ['.'] + b)
  {
    var s := a + ['.'] + b;
    var n := |a|;
    assert s[n] == '.';
    assert forall i :: 0 <= i < n ==> s[i] == a[i];
    assert forall j :: 0 <= j < |b| ==> s[n + 1 + j] == b[j];
    forall i | 0 <= i < |s| && s[i] == '.'
      ensures 0 < i < |s| - 1 && IsLabelEdge(s[i - 1]) && IsLabelEdge(s[i + 1])
    {
      if i > n {
        assert b[i - n - 1] == '.';
      } else {
        assert i == n;
      }
    }
  }

  /** Conversely, splitting such a name at its first dot gives a good label
      and a name whose dots are well placed. */
  lemma DotsToParts(a: string, b: string)
    requires '.' !in a && DotsWellPlaced(a + ['.'] + b)
    ensures GoodLabel(a) && DotsWellPlaced(b)
  {
    var s := a + ['.'] + b;
    var n := |a|;
    assert s[n] == '.';
    assert forall i :: 0 <= i < n ==> s[i] == a[i];
    assert forall j :: 0 <= j < |b| ==> s[n + 1 + j] == b[j];
    assert n > 0 && |b| > 0;
    forall j | 0 <= j < |b| && b[j] == '.'
      ensures 0 < j < |b| - 1 && IsLabelEdge(b[j - 1]) && IsLabelEdge(b[j + 1])
    {
      assert s[n + 1 + j] == '.';
    }
  }

  /** The dots rule at the first dot: the first label is good and the dots
      rule holds for the rest. */
  lemma DotsAtFirstSeparator(a: string, b: string)
    requires '.' !in a
    ensures DotsWellPlaced(a + ['.'] + b) <==> GoodLabel(a) && DotsWellPlaced(b)
  {
    if GoodLabel(a) && DotsWellPlaced(b) {
      DotsFromParts(a, b);
    }
    if DotsWellPlaced(a + ['.'] + b) {
      DotsToParts(a, b);
    }
  }

  /** Both label tests on a list of labels split into its head and tail. */
  lemma EveryLabelCons(head: string, rest: seq<string>)
    ensures EveryLabelGood([head] + rest) <==> GoodLabel(head) && EveryLabelGood(rest)
    ensures EveryLabelDigits([head] + rest) <==> IsDigits(head) && EveryLabelDigits(rest)
  {
    var labels := [head] + rest;
    assert labels[0] == head;
    assert forall j :: 0 <= j < |rest| ==> rest[j] == labels[j + 1];
  }

  /** The digits-and-dots rule at the first dot. */
  lemma DigitsAtFirstSeparator(a: string, b: string)
    ensures DigitsAndDotsOnly(a + ['.'] + b) <==> DigitsAndDotsOnly(a) && DigitsAndDotsOnly(b)
  {
    var s := a + ['.'] + b;
    assert forall i :: 0 <= i < |a| ==> s[i] == a[i];
    assert forall j :: 0 <= j < |b| ==> s[|a| + 1 + j] == b[j];
  }

  /** The loop over labels accepts exactly the names whose dots are well placed. */
  lemma {:induction false} LabelsGoodIff(s: string)
    ensures EveryLabelGood(Split(s, '.')) <==> DotsWellPlaced(s)
    decreases |s|
  {
    var k := Find(s, '.');
    if k < 0 {
      assert Split(s, '.') == [s] + [];
      EveryLabelCons(s, []);
    } else {
      var a, b := s[..k], s[k + 1..];
      assert s == a + ['.'] + b;
      assert Split(s, '.') == [a] + Split(b, '.');
      EveryLabelCons(a, Split(b, '.'));
      LabelsGoodIff(b);
      DotsAtFirstSeparator(a, b);
    }
  }

  /** When every label is good, every label is all digits exactly when the
      name holds only digits and dots. */
  lemma {:induction false} LabelsAllDigitsIff(s: string)
    requires EveryLabelGood(Split(s, '.'))
    ensures EveryLabelDigits(Split(s, '.')) <==> DigitsAndDotsOnly(s)
    decreases |s|
  {
    var k := Find(s, '.');
    if k < 0 {
      assert Split(s, '.') == [s] + [];
      EveryLabelCons(s, []);
    } else {
      var a, b := s[..k], s[k + 1..];
      assert s == a + ['.'] + b;
      assert Split(s, '.') == [a] + Split(b, '.');
      EveryLabelCons(a, Split(b, '.'));
      LabelsAllDigitsIff(b);
      DigitsAtFirstSeparator(a, b);
    }
  }

  /** The ordered check against the character rules: which error each name
      draws, and that it passes exactly the names the rules accept. */
  lemma BucketNameVerdict(name: string)
    ensures IsValidBucketName(name) == Fail(LengthOutOfRange) <==> !LengthOk(name)
    ensures IsValidBucketName(name) == Fail(UppercaseOrUnderscore)
            <==> LengthOk(name) && !NoUpperOrUnderscore(name)
    ensures IsValidBucketName(name) == Fail(BadLabelEdge)
            <==> LengthOk(name) && NoUpperOrUnderscore(name) && !DotsWellPlaced(name)
    ensures IsValidBucketName(name) == Fail(FormattedAsIpAddress)
            <==> LengthOk(name) && NoUpperOrUnderscore(name) && DotsWellPlaced(name)
                 && DigitsAndDotsOnly(name)
    ensures IsValidBucketName(name) == Pass <==> IsS3BucketName(name)
  {
    LowerUnchangedIff(name);
    LabelsGoodIff(name);
    if DotsWellPlaced(name) {
      LabelsAllDigitsIff(name);
    }
  }

  /** A leading dot, a trailing dot or two dots in a row always fail. */
  lemma MisplacedDotRejected(name: string, i: nat)
    requires i < |name| && name[i] == '.'
    requires i == 0 || i == |name| - 1 || (i + 1 < |name| && name[i + 1] == '.')
    ensures IsValidBucketName(name).Fail?
  {
    BucketNameVerdict(name);
  }

  /** A name of digits and dots is never accepted, whatever its number of
      labels: `"123"` fails as surely as `"192.168.1.1"`. */
  lemma DigitsAndDotsRejected(name: string)
    requires DigitsAndDotsOnly(name)
    ensures IsValidBucketName(name).Fail?
  {
    BucketNameVerdict(name);
  }

  /** Characters other than upper-case letters and `_` are free inside a
      label: a name stays accepted when such a character replaces another
      character that is neither first, last, nor next to a dot. Case is
      ASCII case here, as everywhere in this model. */
  lemma InteriorCharactersFree(name: string, i: nat, c: char)
    requires IsS3BucketName(name)
    requires 0 < i < |name| - 1 && name[i] != '.' && name[i - 1] != '.' && name[i + 1] != '.'
    requires !IsUpperChar(c) && c != '_' && c != '.' && !IsDigitChar(c)
    ensures IsValidBucketName(name[i := c]) == Pass
  {
    var n := name[i := c];
    assert forall k :: 0 <= k < |n| && k != i ==> n[k] == name[k];
    assert NoUpperOrUnderscore(n);
    assert !DigitsAndDotsOnly(n) by {
      assert n[i] == c;
    }
    assert DotsWellPlaced(n) by {
      assert n[0] == name[0] && n[|n| - 1] == name[|name| - 1];
      forall k | 0 <= k < |n| && n[k] == '.'
        ensures 0 < k < |n| - 1 && IsLabelEdge(n[k - 1]) && IsLabelEdge(n[k + 1])
      {
        assert k != i && name[k] == '.';
        assert k - 1 != i && k + 1 != i;
      }
    }
    BucketNameVerdict(n);
  }

  /** A dotted name of lower-case words, digits and a dash meets the rules,
      so the check accepts it (`BucketNameVerdict`). */
  lemma ExampleAccepted()
    ensures IsS3BucketName("my.bucket-1")
  {
    var s := "my.bucket-1";
    assert !DigitsAndDotsOnly(s) by {
      assert s[0] == 'm';
    }
    assert forall i :: 0 <= i < |s| && s[i] == '.' ==> i == 2;
  }

  /** So the check accepts `"my.bucket-1"`. */
  lemma ExampleAcceptedVerdict()
    ensures IsValidBucketName("my.bucket-1") == Pass
  {
    ExampleAccepted();
    BucketNameVerdict("my.bucket-1");
  }

  /** Upper case and underscores are caught by the second test. */
  lemma ExampleUppercaseUnderscore()
    ensures IsValidBucketName("My_Bucket") == Fail(UppercaseOrUnderscore)
  {
    assert "My_Bucket"[0] == 'M';
    BucketNameVerdict("My_Bucket");
  }

  /** A dotted quad meets every rule but the last: it is made of digits and
      dots only, so the reference rule refuses it. */
  lemma ExampleDottedQuad()
    ensures LengthOk("192.168.1.1") && NoUpperOrUnderscore("192.168.1.1")
    ensures DotsWellPlaced("192.168.1.1") && DigitsAndDotsOnly("192.168.1.1")
  {
    var s := "192.168.1.1";
    assert forall i :: 0 <= i < |s| && s[i] == '.' ==> i == 3 || i == 7 || i == 9;
  }

  /** So the check rejects `"192.168.1.1"` as an IP address. */
  lemma ExampleDottedQuadVerdict()
    ensures IsValidBucketName("192.168.1.1") == Fail(FormattedAsIpAddress)
  {
    ExampleDottedQuad();
    BucketNameVerdict("192.168.1.1");
  }

  /** Names made of digit labels are refused, dotted quad or not. */
  lemma ExampleDigitsOnly()
    ensures IsValidBucketName("123") == Fail(FormattedAsIpAddress)
  {
    var s := "123";
    assert s[0] == '1' && s[1] == '2' && s[2] == '3';
    assert DotsWellPlaced(s) && DigitsAndDotsOnly(s);
    BucketNameVerdict(s);
  }

  /** A two-letter name fails on length. */
  lemma ExampleTooShort()
    ensures IsValidBucketName("ab") == Fail(LengthOutOfRange)
  {
    BucketNameVerdict("ab");
  }

  /** A doubled dot leaves an empty label, which fails the label test. */
  lemma ExampleDoubledDot()
    ensures IsValidBucketName("a..b") == Fail(BadLabelEdge)
  {
    var s := "a..b";
    assert s[1] == '.' && s[2] == '.';
    assert !DotsWellPlaced(s);
    BucketNameVerdict(s);
  }

  /** `get_bucket_name`: the project slug with every `_` turned into `.`,
      then `-` and the first eight characters of a fresh UUID's text form. */
  function GetBucketName(slug: string, uuid: string): string {
    Replace(slug, '_', '.') + "-" + Prefix(uuid, 8)
  }

  /** The default name's layout: the slug with its underscores turned into
      dots, a dash at position `|slug|`, then the UUID prefix; no underscore
      survives unless the UUID prefix brings one. */
  lemma GetBucketNameShape(slug: string, uuid: string)
    ensures var r := GetBucketName(slug, uuid);
      && |r| == |slug| + 1 + (if |uuid| < 8 then |uuid| else 8)
      && (forall i :: 0 <= i < |slug| ==> r[i] == if slug[i] == '_' then '.' else slug[i])
      && r[|slug|] == '-'
      && r[|slug| + 1..] == Prefix(uuid, 8)
      && ('_' !in Prefix(uuid, 8) ==> '_' !in r)
  {
    var r := GetBucketName(slug, uuid);
    var p := Replace(slug, '_', '.');
    assert r == p + "-" + Prefix(uuid, 8);
    assert forall i :: |slug| < i < |r| ==> r[i] == Prefix(uuid, 8)[i - |slug| - 1];
  }

  /** What a slug looks like: words of lower-case letters and digits joined
      by single underscores. */
  predicate IsSlugShaped(slug: string) {
    && |slug| > 0
    && IsLabelEdge(slug[0])
    && IsLabelEdge(slug[|slug| - 1])
    && forall i {:trigger slug[i]} :: 0 <= i < |slug| ==>
         IsLabelEdge(slug[i])
         || (slug[i] == '_' && 0 < i < |slug| - 1 && IsLabelEdge(slug[i - 1]) && IsLabelEdge(slug[i + 1]))
  }

  /** The default bucket name passes the check when the slug is slug-shaped
      and at most 54 characters long and the UUID text begins with eight
      lower-case letters or digits, as the hexadecimal text of a UUID does. */
  lemma DefaultBucketNameValid(slug: string, uuid: string)
    requires IsSlugShaped(slug) && |slug| <= 54
    requires |uuid| >= 8 && forall i :: 0 <= i < 8 ==> IsLabelEdge(uuid[i])
    ensures IsValidBucketName(GetBucketName(slug, uuid)) == Pass
  {
    var r := GetBucketName(slug, uuid);
    var m := |slug|;
    GetBucketNameShape(slug, uuid);
    assert forall j :: m < j < |r| ==> r[j] == uuid[j - m - 1];
    assert LengthOk(r);
    assert NoUpperOrUnderscore(r) by {
      forall i | 0 <= i < |r| ensures !IsUpperChar(r[i]) && r[i] != '_' {
        if i < m {
          assert IsLabelEdge(slug[i]) || slug[i] == '_';
        }
      }
    }
    assert !DigitsAndDotsOnly(r) by {
      assert r[m] == '-';
    }
    assert DotsWellPlaced(r) by {
      assert r[0] == slug[0] && r[|r| - 1] == uuid[7];
      forall i | 0 <= i < |r| && r[i] == '.'
        ensures 0 < i < |r| - 1 && IsLabelEdge(r[i - 1]) && IsLabelEdge(r[i + 1])
      {
        assert i < m;
        assert slug[i] == '_';
        assert r[i - 1] == slug[i - 1] && r[i + 1] == slug[i + 1];
      }
    }
    BucketNameVerdict(r);
  }

  /** A slug longer than 54 characters gives a default name the check rejects
      for its length. */
  lemma LongSlugDefaultRejected(slug: string, uuid: string)
    requires |slug| > 54 && |uuid| >= 8
    ensures IsValidBucketName(GetBucketName(slug, uuid)) == Fail(LengthOutOfRange)
  {
    GetBucketNameShape(slug, uuid);
  }
}
