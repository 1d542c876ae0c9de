/**
 * File-type classification of a decoded object key. The catalog writer uses
 * the regular expression `/\.([^.]*)$/`; the two mailers use
 * `key.split('.').pop()`. Both then lower-case the suffix and accept only
 * `jpeg` and `png`.
 */
module FileType {
  import opened Wrappers

  /** `s.split(sep)`: the pieces between separators, in order, empty ones included. */
  function Split(s: string, sep: char): (parts: seq<string>)
    ensures |parts| >= 1
    ensures forall i :: 0 <= i < |parts| ==> sep !in parts[i]
    decreases |s|
  {
    if s == [] then [[]]
    else
      var rest := Split(s[1..], sep);
      if s[0] == sep then [[]] + rest
      else [[s[0]] + rest[0]] + rest[1..]
  }

  /** `parts.join(sep)`, the partner of `Split`. */
  function Join(parts: seq<string>, sep: char): string
    requires |parts| >= 1
  {
    if |parts| == 1 then parts[0] else parts[0] + [sep] + Join(parts[1..], sep)
  }

  /** `key.split('.').pop()`: dot-free, and either the whole key or the text after its last dot. */
  function PoppedSuffix(key: string): (x: string)
    ensures '.' !in x
    ensures '.' !in key ==> x == key
    ensures '.' in key ==> exists p :: key == p + "." + x
  {
    var parts := Split(key, '.');
    JoinSplit(key, '.');
    if |parts| >= 2 then
      JoinEndsWithLast(parts, '.');
      parts[|parts| - 1]
    else
      SinglePieceHasNoSeparator(key, '.');
      parts[0]
  }

  /** Does `/\.([^.]*)$/` match at index `i`: a dot with no dot after it up to the end? */
  predicate MatchesAt(key: string, i: nat)
    requires i < |key|
  {
    key[i] == '.' && '.' !in key[i + 1..]
  }

  /**
   * The regular-expression search from index `i` on, leftmost match first;
   * the capture group is returned. It fails exactly when no dot lies at or
   * after `i`, and otherwise captures the dot-free text after the last dot.
   */
  function SearchFrom(key: string, i: nat): (r: Option<string>)
    ensures r.None? <==> forall j :: i <= j < |key| ==> key[j] != '.'
    ensures r.Some? ==> '.' !in r.value && exists p :: key == p + "." + r.value
    decreases |key| - i
  {
    if i >= |key| then None
    else if MatchesAt(key, i) then
      assert key == key[..i] + "." + key[i + 1..];
      Some(key[i + 1..])
    else
      DotBeforeAnother(key, i);
      SearchFrom(key, i + 1)
  }

  /** Where `/\.([^.]*)$/` does not match at a dot, another dot follows. */
  lemma DotBeforeAnother(key: string, i: nat)
    requires i < |key| && !MatchesAt(key, i)
    ensures key[i] == '.' ==> exists j :: i < j < |key| && key[j] == '.'
  {
    if key[i] == '.' {
      var k :| 0 <= k < |key[i + 1..]| && key[i + 1..][k] == '.';
      assert key[i + 1 + k] == '.';
    }
  }

  /** `key.match(/\.([^.]*)$/)`, with `None` for `null`: no match exactly on keys without a dot. */
  function RegexSuffix(key: string): (r: Option<string>)
    ensures r.None? <==> '.' !in key
    ensures r.Some? ==> '.' !in r.value && exists p :: key == p + "." + r.value
  {
    SearchFrom(key, 0)
  }

  /** `String.prototype.toLowerCase` on one character (ASCII letters only). */
  function LowerChar(c: char): char {
    if 'A' <= c <= 'Z' then (c as int - 'A' as int + 'a' as int) as char else c
  }

  /** `toLowerCase()`: ASCII capitals become small letters, every other character stays. */
  function Lower(s: string): (r: string)
    ensures |r| == |s|
    ensures forall i :: 0 <= i < |s| && 'A' <= s[i] <= 'Z' ==> r[i] as int == s[i] as int + 32
    ensures forall i :: 0 <= i < |s| && !('A' <= s[i] <= 'Z') ==> r[i] == s[i]
  {
    seq(|s|, i requires 0 <= i < |s| => LowerChar(s[i]))
  }

  /** The only two accepted image types. */
  predicate IsSupportedType(imageType: string) {
    imageType == "jpeg" || imageType == "png"
  }

  /** How the catalog writer judges a key (processImage.ts). */
  datatype Classification = Undetermined | Unsupported(imageType: string) | Supported

  /**
   * The type is undetermined exactly for dot-free keys; otherwise it is
   * supported exactly when the mailers accept the key too, and an
   * unsupported type is reported as neither `jpeg` nor `png`.
   */
  function ClassifyStrict(key: string): (c: Classification)
    ensures c == Undetermined <==> '.' !in key
    ensures c == Supported <==> '.' in key && MailerAccepts(key)
    ensures c.Unsupported? ==> !IsSupportedType(c.imageType)
  {
    match RegexSuffix(key)
    case None => Undetermined
    case Some(suffix) =>
      var imageType := Lower(suffix);
      if IsSupportedType(imageType) then Supported else Unsupported(imageType)
  }

  /**
   * How the mailers judge a key: `key.split('.').pop()?.toLowerCase()` is
   * `jpeg` or `png`. On a key with a dot this is the regular expression's
   * capture; a dot-free key is judged by its whole text.
   */
  predicate MailerAccepts(key: string): (ok: bool)
    ensures '.' in key ==> (ok <==> IsSupportedType(Lower(RegexSuffix(key).value)))
    ensures '.' !in key ==> (ok <==> IsSupportedType(Lower(key)))
  {
    SuffixVariantsAgree(key);
    IsSupportedType(Lower(PoppedSuffix(key)))
  }

  // ---------------------------------------------------------------------
  // Properties.

  /** `Split` loses nothing: joining the pieces again gives the key back. */
  lemma {:induction false} JoinSplit(s: string, sep: char)
    ensures Join(Split(s, sep), sep) == s
    decreases |s|
  {
    if s != [] {
      JoinSplit(s[1..], sep);
      var rest := Split(s[1..], sep);
      if s[0] == sep {
        assert Split(s, sep)[1..] == rest;
        assert [sep] + Join(rest, sep) == s;
      } else if |rest| == 1 {
        assert [s[0]] + rest[0] == s;
      } else {
        assert Split(s, sep)[1..] == rest[1..];
        assert [s[0]] + (rest[0] + [sep] + Join(rest[1..], sep)) == s;
      }
    }
  }

  /** The joined form ends with a separator followed by the last piece when there are several pieces. */
  lemma {:induction false} JoinEndsWithLast(parts: seq<string>, sep: char)
    requires |parts| >= 2
    ensures exists p :: Join(parts, sep) == p + [sep] + parts[|parts| - 1]
    decreases |parts|
  {
    if |parts| == 2 {
      assert Join(parts, sep) == parts[0] + [sep] + parts[1];
    } else {
      JoinEndsWithLast(parts[1..], sep);
      var p :| Join(parts[1..], sep) == p + [sep] + parts[|parts| - 1];
      assert Join(parts, sep) == (parts[0] + [sep] + p) + [sep] + parts[|parts| - 1];
    }
  }

  /** A single piece means no separator at all. */
  lemma SinglePieceHasNoSeparator(s: string, sep: char)
    requires |Split(s, sep)| == 1
    ensures sep !in s
  {
    JoinSplit(s, sep);
  }

  /** The text after the last dot is unique: the one dot with no dot after it. */
  lemma SuffixUnique(key: string, p: string, x: string, q: string, y: string)
    requires key == p + "." + x && '.' !in x
    requires key == q + "." + y && '.' !in y
    ensures x == y
  {
    assert key[|key| - |x| - 1] == '.' && x == key[|key| - |x|..];
    assert key[|key| - |y| - 1] == '.' && y == key[|key| - |y|..];
  }

  /**
   * The two variants agree on every key with a dot; on a key without one the
   * regular expression fails while `pop()` returns the whole key.
   */
  lemma SuffixVariantsAgree(key: string)
    ensures '.' in key ==> RegexSuffix(key) == Some(PoppedSuffix(key))
    ensures '.' !in key ==> RegexSuffix(key) == None && PoppedSuffix(key) == key
  {
    if '.' in key {
      var p :| key == p + "." + RegexSuffix(key).value;
      var q :| key == q + "." + PoppedSuffix(key);
      SuffixUnique(key, p, RegexSuffix(key).value, q, PoppedSuffix(key));
    }
  }

  /** A dot-less key such as `PNG` is accepted by the mailers yet undetermined for the catalog writer. */
  lemma DotlessKeyDiverges()
    ensures MailerAccepts("PNG") && ClassifyStrict("PNG") == Undetermined
  {
    SuffixVariantsAgree("PNG");
    assert Lower("PNG") == "png";
  }

  /** Whatever precedes the last dot, the capture group is the dot-free text after it. */
  lemma RegexSuffixOf(p: string, x: string)
    requires '.' !in x
    ensures RegexSuffix(p + "." + x) == Some(x)
  {
    var key := p + "." + x;
    assert key[|p|] == '.';
    var q :| key == q + "." + RegexSuffix(key).value;
    SuffixUnique(key, p, x, q, RegexSuffix(key).value);
  }

  /** Whatever precedes the last dot, `pop()` returns the dot-free text after it. */
  lemma PoppedSuffixOf(p: string, x: string)
    requires '.' !in x
    ensures PoppedSuffix(p + "." + x) == x
  {
    var key := p + "." + x;
    assert key[|p|] == '.';
    var q :| key == q + "." + PoppedSuffix(key);
    SuffixUnique(key, p, x, q, PoppedSuffix(key));
  }

  /** The suffix is compared case-insensitively: whatever precedes it, `PNG` and `JpEg` are supported. */
  lemma SuffixCaseIgnored(p: string)
    ensures ClassifyStrict(p + "." + "PNG") == Supported
    ensures ClassifyStrict(p + "." + "JpEg") == Supported
  {
    RegexSuffixOf(p, "PNG");
    assert Lower("PNG") == "png";
    RegexSuffixOf(p, "JpEg");
    assert Lower("JpEg") == "jpeg";
  }

  /** `jpg` is not an alias of `jpeg`. */
  lemma JpgIsUnsupported()
    ensures ClassifyStrict("photo.jpg") == Unsupported("jpg")
  {
    RegexSuffixOf("photo", "jpg");
    assert "photo" + "." + "jpg" == "photo.jpg";
    assert Lower("jpg") == "jpg";
    assert "jpg" != "jpeg" && "jpg" != "png";
  }

  /** A trailing dot leaves an empty suffix, which is unsupported rather than undetermined. */
  lemma TrailingDotIsUnsupported()
    ensures ClassifyStrict("photo.") == Unsupported("")
  {
    RegexSuffixOf("photo", "");
  }

  /** Only the text after the last dot counts. */
  lemma LastDotCounts()
    ensures ClassifyStrict("archive.png.pdf") == Unsupported("pdf")
  {
    RegexSuffixOf("archive.png", "pdf");
    assert "archive.png" + "." + "pdf" == "archive.png.pdf";
    assert Lower("pdf") == "pdf";
  }
}
