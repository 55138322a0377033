/**
  Feed-version and object-key derivation (`main.go`, lines 34-40): the last
  `/`-segment of the resolved URL, with every ".zip" deleted, split on `_`;
  the third field is the version, and the two object keys are built from it.
*/
module FeedVersion {
  import opened Strings

  const ZipExtension := ".zip"

  /**
    The result of indexing the fields with [2]: the version, or the Go runtime's
    "index out of range" when there are fewer than three fields.
  */
  datatype Version =
    | Version(value: string)
    | IndexOutOfRange(fieldCount: nat)

  /** `splitUrlParts[len(splitUrlParts)-1]`: the text after the last `/`. */
  function LastSegment(url: string): (name: string)
    ensures '/' !in name
    ensures |name| <= |url| && url[|url| - |name|..] == name
    ensures |name| == |url| || url[|url| - |name| - 1] == '/'
  {
    var parts := Split(url, '/');
    JoinSplit(url, '/');
    JoinEndsWithLast(parts, '/');
    parts[|parts| - 1]
  }

  /** The file name with every ".zip" deleted; a name without a dot is its own stem. */
  function Stem(url: string): (stem: string)
    ensures '/' !in stem && |stem| <= |LastSegment(url)|
    ensures '.' !in LastSegment(url) ==> stem == LastSegment(url)
  {
    var name := LastSegment(url);
    if '.' !in name then
      NoZipWithoutDot(name);
      DeleteAllWithoutOccurrence(name, ZipExtension);
      DeleteAll(name, ZipExtension)
    else
      DeleteAll(name, ZipExtension)
  }

  /** `strings.Split(strings.ReplaceAll(fileName, ".zip", ""), "_")[2]`. */
  function Derive(url: string): (v: Version)
    ensures v.Version? <==> Count(Stem(url), '_') >= 2
    ensures v.IndexOutOfRange? ==> v.fieldCount == Count(Stem(url), '_') + 1 < 3
    ensures v.Version? ==> '_' !in v.value && '/' !in v.value
  {
    var fields := Split(Stem(url), '_');
    if |fields| < 3 then IndexOutOfRange(|fields|)
    else
      JoinSplit(Stem(url), '_');
      SlashFreeFields(fields);
      Version(fields[2])
  }

  lemma {:induction false} SlashFreeFields(fields: seq<string>)
    requires |fields| >= 1 && '/' !in Join(fields, '_')
    ensures forall i :: 0 <= i < |fields| ==> '/' !in fields[i]
    decreases |fields|
  {
    if |fields| > 1 {
      SlashFreeFields(fields[1..]);
      forall i | 1 <= i < |fields| ensures '/' !in fields[i] {
        assert fields[i] == fields[1..][i - 1];
      }
    }
  }

  /** `fmt.Sprintf("%s_feed.zip", feedVersion)`: the raw archive's object key. */
  function ArchiveKey(version: string): (key: string)
    ensures |key| == |version| + 9
    ensures key[..|version|] == version && key[|version|..] == "_feed.zip"
  {
    version + "_feed.zip"
  }

  /** `fmt.Sprintf("%s_feed.db", feedVersion)`: the database file's name and object key. */
  function DatabaseKey(version: string): (key: string)
    ensures |key| == |version| + 8
    ensures key[..|version|] == version && key[|version|..] == "_feed.db"
  {
    version + "_feed.db"
  }

  /** No archive key is ever a database key, whatever the two versions. */
  lemma ArchiveAndDatabaseKeysDiffer(v: string, w: string)
    ensures ArchiveKey(v) != DatabaseKey(w)
  {
    var a, d := ArchiveKey(v), DatabaseKey(w);
    assert a[|a| - 1] == 'p';
    assert d[|d| - 1] == 'b';
  }

  /** Each archive key names exactly one version, so the gate and the publish agree. */
  lemma ArchiveKeyInjective(v: string, w: string)
    requires ArchiveKey(v) == ArchiveKey(w)
    ensures v == w
  {
    assert v == ArchiveKey(v)[..|v|];
    assert w == ArchiveKey(w)[..|w|];
  }

  lemma DatabaseKeyInjective(v: string, w: string)
    requires DatabaseKey(v) == DatabaseKey(w)
    ensures v == w
  {
    assert v == DatabaseKey(v)[..|v|];
    assert w == DatabaseKey(w)[..|w|];
  }

  /** Whatever precedes the last `/` does not affect the version. */
  lemma OnlyLastSegmentMatters(prefix: string, name: string)
    requires '/' !in name
    ensures LastSegment(prefix + "/" + name) == name
    ensures Derive(prefix + "/" + name) == Derive(name)
  {
    SplitAppend(prefix, name, '/');
    SplitWithoutSeparator(name, '/');
    assert prefix + "/" + name == prefix + ['/'] + name;
  }

  /** ".zip" at the end of a name in which it does not otherwise occur is simply dropped. */
  lemma DeleteTrailingZip(x: string)
    requires !Occurs(x, ZipExtension)
    ensures DeleteAll(x + ZipExtension, ZipExtension) == x
  {
    var w := x + ZipExtension;
    forall i | 0 <= i < |x|
      ensures !OccursAt(w, ZipExtension, i)
    {
      if OccursAt(w, ZipExtension, i) {
        if i + 4 <= |x| {
          assert w[i..i + 4] == x[i..i + 4];
          assert OccursAt(x, ZipExtension, i);
        } else {
          OccurrenceCharAt(w, ZipExtension, i, |x| - i);
        }
        assert false;
      }
    }
    DeleteAllKeepsClearPrefix(x, ZipExtension, ZipExtension);
  }

  /** Every occurrence of ".zip" starts with a dot, so a dot-free string has none. */
  lemma NoZipWithoutDot(s: string)
    requires '.' !in s
    ensures !Occurs(s, ZipExtension)
  {
    if i :| 0 <= i <= |s| && OccursAt(s, ZipExtension, i) {
      OccurrenceCharAt(s, ZipExtension, i, 0);
      assert false;
    }
  }

  /** The stem of `a_b_c.zip` is `a_b_c` and its fields are a, b and c. */
  lemma FieldsOfStructuredName(a: string, b: string, c: string)
    requires '_' !in a && '_' !in b && '_' !in c
    requires !Occurs(a, ZipExtension) && !Occurs(b, ZipExtension) && !Occurs(c, ZipExtension)
    ensures DeleteAll(a + "_" + b + "_" + c + ZipExtension, ZipExtension) == a + "_" + b + "_" + c
    ensures Split(a + "_" + b + "_" + c, '_') == [a, b, c]
  {
    var stem := a + "_" + b + "_" + c;
    assert stem == a + ['_'] + (b + ['_'] + c);
    NoOccurrenceAcross(b, c, '_', ZipExtension);
    NoOccurrenceAcross(a, b + ['_'] + c, '_', ZipExtension);
    DeleteTrailingZip(stem);
    assert Join([c], '_') == c;
    assert [b, c][1..] == [c];
    assert Join([b, c], '_') == b + ['_'] + c;
    assert [a, b, c][1..] == [b, c];
    assert Join([a, b, c], '_') == a + ['_'] + Join([b, c], '_');
    SplitJoin([a, b, c], '_');
  }

  /**
    A resolved URL ending in `a_b_c.zip`, where none of a, b, c contains `_`,
    `/` or ".zip", has version c: index 2 is the third field.
  */
  lemma VersionOfStructuredName(prefix: string, a: string, b: string, c: string)
    requires '_' !in a && '_' !in b && '_' !in c
    requires '/' !in a && '/' !in b && '/' !in c
    requires !Occurs(a, ZipExtension) && !Occurs(b, ZipExtension) && !Occurs(c, ZipExtension)
    ensures Derive(prefix + "/" + a + "_" + b + "_" + c + ZipExtension) == Version(c)
  {
    var name := a + "_" + b + "_" + c + ZipExtension;
    assert '/' !in name;
    assert prefix + "/" + a + "_" + b + "_" + c + ZipExtension == prefix + "/" + name;
    OnlyLastSegmentMatters(prefix, name);
    FieldsOfStructuredName(a, b, c);
    assert Stem(prefix + "/" + name) == a + "_" + b + "_" + c;
    assert Split(Stem(prefix + "/" + name), '_') == [a, b, c];
  }

  /**
    Index 2 picks the third field however many follow: a resolved URL whose
    last segment is `a_b_c_` and then any `/`-free rest (".zip" and further
    underscores included) has version c.
  */
  lemma VersionIsThirdField(prefix: string, a: string, b: string, c: string, rest: string)
    requires '_' !in a && '_' !in b && '_' !in c
    requires '/' !in a && '/' !in b && '/' !in c && '/' !in rest
    requires !Occurs(a, ZipExtension) && !Occurs(b, ZipExtension) && !Occurs(c, ZipExtension)
    ensures Derive(prefix + "/" + (a + "_" + b + "_" + c + "_" + rest)) == Version(c)
  {
    var name := a + "_" + b + "_" + c + "_" + rest;
    assert '/' !in name;
    OnlyLastSegmentMatters(prefix, name);
    ThirdFieldOfStem(a, b, c, rest);
  }

  lemma ThirdFieldOfStem(a: string, b: string, c: string, rest: string)
    requires '_' !in a && '_' !in b && '_' !in c
    requires !Occurs(a, ZipExtension) && !Occurs(b, ZipExtension) && !Occurs(c, ZipExtension)
    ensures var fields := Split(DeleteAll(a + "_" + b + "_" + c + "_" + rest, ZipExtension), '_');
      |fields| >= 3 && fields[2] == c
  {
    var u := a + "_" + b + "_" + c;
    assert u == a + ['_'] + (b + ['_'] + c);
    NoOccurrenceAcross(b, c, '_', ZipExtension);
    NoOccurrenceAcross(a, b + ['_'] + c, '_', ZipExtension);
    DeleteAllAfterSeparator(u, rest);
    var tail := DeleteAll(rest, ZipExtension);
    SplitAppend(u, tail, '_');
    FieldsOfStructuredName(a, b, c);
  }

  /** A ".zip"-free head and an underscore pass through the deletion unchanged. */
  lemma DeleteAllAfterSeparator(u: string, rest: string)
    requires !Occurs(u, ZipExtension)
    ensures DeleteAll(u + ['_'] + rest, ZipExtension) == u + ['_'] + DeleteAll(rest, ZipExtension)
  {
    var head := u + ['_'];
    var name := head + rest;
    forall i | 0 <= i < |head|
      ensures !OccursAt(name, ZipExtension, i)
    {
      if OccursAt(name, ZipExtension, i) {
        if i + 4 <= |u| {
          assert name[i..i + 4] == u[i..i + 4];
          assert OccursAt(u, ZipExtension, i);
        } else {
          OccurrenceCharAt(name, ZipExtension, i, |u| - i);
        }
        assert false;
      }
    }
    DeleteAllKeepsClearPrefix(head, rest, ZipExtension);
  }

  /** A four-field name `xyz_2025_v7_full.zip` also gives version "v7". */
  lemma ExampleLongerVersion()
    ensures Derive("https://data.example/feed/xyz_2025_v7_full.zip") == Version("v7")
  {
    NoZipWithoutDot("xyz");
    NoZipWithoutDot("2025");
    NoZipWithoutDot("v7");
    assert "https://data.example/feed/xyz_2025_v7_full.zip"
      == "https://data.example/feed" + "/" + ("xyz" + "_" + "2025" + "_" + "v7" + "_" + "full.zip");
    VersionIsThirdField("https://data.example/feed", "xyz", "2025", "v7", "full.zip");
  }

  /** The keys of version "v7" are "v7_feed.zip" and "v7_feed.db". */
  lemma ExampleKeys()
    ensures ArchiveKey("v7") == "v7_feed.zip" && DatabaseKey("v7") == "v7_feed.db"
  {
    assert "v7" + "_feed.zip" == "v7_feed.zip";
    assert "v7" + "_feed.db" == "v7_feed.db";
  }

  /** A redirect to `.../xyz_2025_v7.zip` gives version "v7", the third field. */
  lemma ExampleVersion()
    ensures Derive("https://data.example/feed/xyz_2025_v7.zip") == Version("v7")
  {
    NoZipWithoutDot("xyz");
    NoZipWithoutDot("2025");
    NoZipWithoutDot("v7");
    assert "https://data.example/feed/xyz_2025_v7.zip"
      == "https://data.example/feed" + "/" + "xyz" + "_" + "2025" + "_" + "v7" + ZipExtension;
    VersionOfStructuredName("https://data.example/feed", "xyz", "2025", "v7");
  }
}
