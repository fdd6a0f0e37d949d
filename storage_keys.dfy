/**
 * The pure helpers of the file transfer: the extension taken from the
 * client's file name, the object-store key a file is uploaded under, and
 * the classification of a file by the name of the form field it came in.
 */
module StorageKeys {
  import opened Text

  /** `originalFilename.split('.').pop()`: what follows the last dot, or the whole name when it has none. */
  function Extension(originalFilename: string): string {
    Last(Split(originalFilename, '.'))
  }

  /** `${submissionId}/${fieldName}_${position}.${ext}`, the object-store key of one file. */
  function StorageKey(submissionId: string, fieldName: string, position: nat, ext: string): string {
    submissionId + "/" + fieldName + "_" + NatToString(position) + "." + ext
  }

  /** The `file_type` column: `'photo'` when the field name contains `"photo"`, `'document'` otherwise. */
  function FileType(fieldName: string): string {
    if Includes(fieldName, "photo") then "photo" else "document"
  }

  /** A file is a photo exactly when its field name contains `"photo"` (case-sensitive), and a document otherwise. */
  lemma FileTypeIsPhotoIff(fieldName: string)
    ensures FileType(fieldName) == "photo" <==> exists k :: OccursAt(fieldName, "photo", k)
    ensures FileType(fieldName) != "photo" ==> FileType(fieldName) == "document"
  {
    IncludesIff(fieldName, "photo");
  }

  /**
   * The extension is the part of the name after its last dot: a suffix of
   * the name with no dot in it, preceded by a dot unless it is the whole
   * name, which it is exactly when the name has no dot. So a name ending
   * in a dot has the empty extension.
   */
  lemma ExtensionAfterLastDot(name: string)
    ensures '.' !in Extension(name)
    ensures |Extension(name)| <= |name| && name[|name| - |Extension(name)|..] == Extension(name)
    ensures |Extension(name)| < |name| ==> name[|name| - |Extension(name)| - 1] == '.'
    ensures '.' in name <==> |Extension(name)| < |name|
    ensures '.' !in name ==> Extension(name) == name
    ensures |name| > 0 && name[|name| - 1] == '.' ==> Extension(name) == ""
  {
    var parts := Split(name, '.');
    var ext := Last(parts);
    SplitJoin(name, '.');
    if |parts| == 1 {
      assert name == ext;
    } else {
      JoinLast(parts, '.');
      var front := Join(parts[..|parts| - 1], '.');
      assert name == front + ['.'] + ext;
      assert name[|name| - |ext|..] == ext;
      assert name[|name| - |ext| - 1] == '.';
    }
  }

  /** Two strings cut at a separator that neither tail contains have equal heads and equal tails. */
  lemma {:induction false} CutAtLastSeparator(a: string, x: string, b: string, y: string, sep: char)
    requires sep !in x && sep !in y
    requires a + [sep] + x == b + [sep] + y
    ensures a == b && x == y
  {
    var s := a + [sep] + x;
    assert s == b + [sep] + y;
    assert forall j :: |s| - |x| <= j < |s| ==> s[j] == x[j - (|s| - |x|)];
    assert forall j :: |s| - |y| <= j < |s| ==> s[j] == y[j - (|s| - |y|)];
    assert s[|s| - |x| - 1] == sep && s[|s| - |y| - 1] == sep;
    assert |x| == |y|;
    assert x == s[|s| - |x|..];
    assert y == (b + [sep] + y)[|s| - |y|..];
    assert a == s[..|a|];
    assert b == (b + [sep] + y)[..|b|];
  }

  /** A name that ends in a dot followed by a dot-free `ext` has extension `ext`. */
  lemma ExtensionOfDotted(front: string, ext: string)
    requires '.' !in ext
    ensures Extension(front + "." + ext) == ext
  {
    var name := front + "." + ext;
    var e := Extension(name);
    ExtensionAfterLastDot(name);
    assert name[|front|] == '.';
    var head := name[..|name| - |e| - 1];
    assert name == head + ['.'] + e;
    assert name == front + ['.'] + ext;
    CutAtLastSeparator(head, e, front, ext, '.');
  }

  /** The storage key keeps the file's extension: the key's own extension is the file's. */
  lemma KeyKeepsExtension(submissionId: string, fieldName: string, position: nat, originalFilename: string)
    ensures Extension(StorageKey(submissionId, fieldName, position, Extension(originalFilename)))
         == Extension(originalFilename)
  {
    ExtensionAfterLastDot(originalFilename);
    var ext := Extension(originalFilename);
    ExtensionOfDotted(submissionId + "/" + fieldName + "_" + NatToString(position), ext);
  }

  /**
   * Keys of one submission never collide: the key determines the field
   * name, the position and the extension, so no upload of a submission can
   * overwrite another of the same submission.
   */
  lemma KeyInjective(submissionId: string,
                     field1: string, position1: nat, ext1: string,
                     field2: string, position2: nat, ext2: string)
    requires '.' !in ext1 && '.' !in ext2
    ensures StorageKey(submissionId, field1, position1, ext1) == StorageKey(submissionId, field2, position2, ext2)
        ==> field1 == field2 && position1 == position2 && ext1 == ext2
  {
    var d1, d2 := NatToString(position1), NatToString(position2);
    var head1, head2 := submissionId + "/" + field1, submissionId + "/" + field2;
    if StorageKey(submissionId, field1, position1, ext1) == StorageKey(submissionId, field2, position2, ext2) {
      assert StorageKey(submissionId, field1, position1, ext1) == (head1 + ['_'] + d1) + ['.'] + ext1;
      assert StorageKey(submissionId, field2, position2, ext2) == (head2 + ['_'] + d2) + ['.'] + ext2;
      CutAtLastSeparator(head1 + ['_'] + d1, ext1, head2 + ['_'] + d2, ext2, '.');
      DigitsHaveNoSeparator(d1, '_');
      DigitsHaveNoSeparator(d2, '_');
      CutAtLastSeparator(head1, d1, head2, d2, '_');
      assert field1 == head1[|submissionId| + 1..];
      assert field2 == head2[|submissionId| + 1..];
      NatToStringInjective(position1, position2);
    }
  }

  /** Two different (field, position) pairs of one submission get different keys, whatever the file names. */
  lemma DistinctPositionsDistinctKeys(submissionId: string, field1: string, index1: nat, name1: string,
                                      field2: string, index2: nat, name2: string)
    requires field1 != field2 || index1 != index2
    ensures StorageKey(submissionId, field1, index1 + 1, Extension(name1))
         != StorageKey(submissionId, field2, index2 + 1, Extension(name2))
  {
    ExtensionAfterLastDot(name1);
    ExtensionAfterLastDot(name2);
    KeyInjective(submissionId, field1, index1 + 1, Extension(name1), field2, index2 + 1, Extension(name2));
  }
}
