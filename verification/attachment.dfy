/**
 * The attachment side of an incoming message (index.js:193-201): the file extension
 * taken from the original name, the storage key `<Date.now()>.<extension>`, and the
 * payload segment of the data URI that is written under that key.
 */
module Attachment {
  import opened Wrappers
  import opened Text

  /**
   * `name.split('.')` and its last element: the text after the last `.` of the name,
   * or the whole name when it has no `.`.
   */
  function Extension(name: string): (ext: string)
    ensures '.' !in ext
  {
    Last(Split(name, '.'))
  }

  /** The extension is the tail of the name, preceded by a `.` unless it is the whole name. */
  lemma ExtensionIsSuffix(name: string)
    ensures |Extension(name)| <= |name|
    ensures name[|name| - |Extension(name)|..] == Extension(name)
    ensures |Extension(name)| < |name| ==> name[|name| - |Extension(name)| - 1] == '.'
  {
    var parts := Split(name, '.');
    var ext := Extension(name);
    assert ext == parts[|parts| - 1];
    JoinSplit(name, '.');
    if |parts| == 1 {
      assert name == ext;
    } else {
      var init := parts[..|parts| - 1];
      InitAndLast(parts);
      JoinAppend(init, ext, '.');
      TailAfterDot(Join(init, '.'), ext);
    }
  }

  /** A non-empty sequence is its front followed by its last element. */
  lemma InitAndLast(parts: seq<string>)
    requires |parts| >= 1
    ensures parts[..|parts| - 1] + [parts[|parts| - 1]] == parts
  {
  }

  /** In `front.ext`, the last `|ext|` characters are `ext` and the one before is the dot. */
  lemma TailAfterDot(front: string, ext: string)
    ensures var s := front + ['.'] + ext;
      s[|s| - |ext|..] == ext && s[|s| - |ext| - 1] == '.'
  {
  }

  /** Whatever precedes the last `.` is dropped: `photo.jpg` has extension `jpg`. */
  lemma ExtensionAfterLastDot(base: string, ext: string)
    requires '.' !in ext
    ensures Extension(base + "." + ext) == ext
  {
    var parts := Split(base, '.');
    JoinSplit(base, '.');
    JoinAppend(parts, ext, '.');
    forall i | 0 <= i < |parts + [ext]|
      ensures '.' !in (parts + [ext])[i]
    {
      if i < |parts| {
        assert (parts + [ext])[i] == parts[i];
      }
    }
    SplitJoin(parts + [ext], '.');
  }

  /** A name without a `.` is its own extension: `README` gives `README`. */
  lemma ExtensionOfDotlessName(name: string)
    requires '.' !in name
    ensures Extension(name) == name
  {
    SplitWhole(name, '.');
  }

  /** The extension of `photo.jpg`. */
  lemma PhotoExtension()
    ensures Extension("photo.jpg") == "jpg"
  {
    assert "photo.jpg" == "photo" + "." + "jpg";
    ExtensionAfterLastDot("photo", "jpg");
  }

  /**
   * `Date.now() + '.' + ext` (index.js:195-198). The key reads back as exactly two
   * `.`-separated fields: the decimal timestamp, which denotes `now`, and the extension.
   */
  function AttachmentKey(now: nat, name: string): (key: string)
    ensures Split(key, '.') == [Decimal(now), Extension(name)]
    ensures DecimalValue(Split(key, '.')[0]) == now
  {
    var stamp := Decimal(now);
    assert '.' !in stamp by {
      forall i | 0 <= i < |stamp| ensures stamp[i] != '.' {
        assert '0' <= stamp[i] <= '9';
      }
    }
    SplitAtSeparator(stamp, Extension(name), '.');
    SplitWhole(Extension(name), '.');
    DecimalRoundTrip(now);
    stamp + "." + Extension(name)
  }

  /**
   * `data.split(',')[1]` (index.js:201): the text after the first comma, up to any
   * second comma. A data string without a comma has no such segment (JavaScript yields
   * `undefined`).
   */
  function FileContent(data: string): (content: Option<string>)
    ensures content.None? <==> ',' !in data
    ensures content.Some? ==> ',' !in content.value
  {
    var parts := Split(data, ',');
    if |parts| >= 2 then Some(parts[1]) else None
  }

  /**
   * For a data URI `<header>,<payload>` the stored content is the payload, and anything
   * from a second comma on is dropped.
   */
  lemma DataUriPayload(header: string, payload: string, rest: string)
    requires ',' !in header && ',' !in payload
    requires rest == "" || rest[0] == ','
    ensures FileContent(header + "," + payload + rest) == Some(payload)
  {
    assert header + "," + payload + rest == header + [','] + (payload + rest);
    SplitAtSeparator(header, payload + rest, ',');
    SplitPrefix(payload, rest, ',');
    assert Split(rest, ',')[0] == "";
    assert payload + Split(rest, ',')[0] == payload;
    assert Split(header + [','] + (payload + rest), ',')[1] == payload;
  }
}
