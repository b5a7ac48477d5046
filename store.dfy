/** The state a download run touches: the files it writes, the sleeps it asks
    for and the HTTP requests it issues, together with the shape of an output
    path `images/<artist>/<i>.jpg`. */
module Store {

  newtype byte = x: int | 0 <= x < 256

  type Bytes = seq<byte>

  type Url = string

  /** The output root every image folder lives under. */
  const OUT_DIR: string := "images"

  /** The output path of the `index`-th image of `artist`, kept as the two parts
      it is joined from; `Name` gives the path as text. */
  datatype Path = ImagePath(artist: string, index: nat) {

    /** The output root, a slash, the artist's folder, a slash, the index in
        decimal and the `.jpg` extension. For an artist that is a FolderName
        this is `os.path.join(OUT_DIR, artist, f"{index}.jpg")` on a POSIX
        system (JoinMatchesName); for an empty artist, or one with a slash,
        the join merges or drops separators and the two differ. */
    function Name(): (s: string)
      ensures |s| >= |OUT_DIR| + |artist| + 7
      ensures s[..|OUT_DIR| + 1] == OUT_DIR + "/"
      ensures s[|OUT_DIR| + 1..|OUT_DIR| + 1 + |artist|] == artist
      ensures s[|OUT_DIR| + 1 + |artist|] == '/'
      ensures forall c :: c in s[|OUT_DIR| + |artist| + 2..|s| - 4] ==> IsDigit(c)
      ensures DigitsValue(s[|OUT_DIR| + |artist| + 2..|s| - 4]) == index
      ensures s[|s| - 4..] == ".jpg"
    {
      var s := OUT_DIR + "/" + artist + "/" + Decimal(index) + ".jpg";
      assert s[|OUT_DIR| + |artist| + 2..|s| - 4] == Decimal(index);
      DecimalRoundTrip(index);
      s
    }
  }

  /** An artist folder name: not empty and without a slash. */
  predicate FolderName(a: string) {
    a != "" && '/' !in a
  }

  /** `posixpath.join(path, part)`: a part starting with a slash replaces the
      path; otherwise the part is appended, after a slash unless the path is
      empty or already ends in one. */
  function Join(path: string, part: string): (r: string)
    ensures |part| > 0 && part[0] == '/' ==> r == part
    ensures !(|part| > 0 && part[0] == '/') ==>
              && |path| + |part| <= |r| <= |path| + |part| + 1
              && r[..|path|] == path && r[|r| - |part|..] == part
    ensures !(|part| > 0 && part[0] == '/') ==>
              (|r| == |path| + |part| + 1 <==> path != [] && path[|path| - 1] != '/')
    ensures |r| == |path| + |part| + 1 ==> r[|path|] == '/'
  {
    if |part| > 0 && part[0] == '/' then part
    else if path == [] || path[|path| - 1] == '/' then path + part
    else path + "/" + part
  }

  /** One HTTP GET issued: the URL and the 1-based attempt number it belongs to. */
  datatype Request = Request(url: Url, attempt: nat)

  /** Everything a run changes: the file store, the log of requested sleep
      durations (in seconds) and the log of requests issued, oldest first. */
  datatype World = World(files: map<Path, Bytes>, sleeps: seq<nat>, requests: seq<Request>)

  predicate IsDigit(c: char) { '0' <= c <= '9' }

  function Digit(d: nat): (c: char)
    requires d < 10
    ensures IsDigit(c)
  {
    "0123456789"[d]
  }

  /** Python's `str` of a non-negative int: decimal digits, no leading zero. */
  function Decimal(n: nat): (s: string)
    ensures |s| >= 1
    ensures n > 0 ==> s[0] != '0'
    ensures forall c :: c in s ==> IsDigit(c)
  {
    if n < 10 then [Digit(n)] else Decimal(n / 10) + [Digit(n % 10)]
  }

  /** The number a string of decimal digits denotes. */
  function DigitsValue(s: string): nat
    requires forall c :: c in s ==> IsDigit(c)
  {
    if s == [] then 0
    else
      var init := s[..|s| - 1];
      assert forall c :: c in init ==> c in s;
      assert IsDigit(s[|s| - 1]);
      DigitsValue(init) * 10 + ((s[|s| - 1] as int) - ('0' as int))
  }

  /** Reading back the decimal text of `n` gives `n`. */
  lemma {:induction false} DecimalRoundTrip(n: nat)
    ensures DigitsValue(Decimal(n)) == n
  {
    var s := Decimal(n);
    assert s[..|s| - 1] == (if n < 10 then [] else Decimal(n / 10));
    if n >= 10 {
      DecimalRoundTrip(n / 10);
    }
  }

  /** In a file name only digits follow the slash after the artist, up to
      `.jpg`: so the slash after another artist's name in the same file name
      cannot come later, and equal names have artists of equal length. */
  lemma ArtistSlashFixed(a: string, i: nat, b: string, j: nat)
    requires ImagePath(a, i).Name() == ImagePath(b, j).Name()
    ensures |a| >= |b|
  {
    var s := ImagePath(a, i).Name();
    var p := |OUT_DIR| + 1 + |a|;
    var q := |OUT_DIR| + 1 + |b|;
    var digits := s[p + 1..|s| - 4];
    assert s[q] == '/';
    forall k | p + 1 <= k < |s| - 4
      ensures IsDigit(s[k])
    {
      assert s[k] == digits[k - p - 1];
      assert digits[k - p - 1] in digits;
    }
  }

  /** Two images get the same file name only if they are the same image:
      the name keeps both the artist and the index apart, even for artist
      names that contain a slash, since only digits follow the slash after
      the artist. */
  lemma NameIdentifiesPath(a: string, i: nat, b: string, j: nat)
    requires ImagePath(a, i).Name() == ImagePath(b, j).Name()
    ensures a == b && i == j
  {
    ArtistSlashFixed(a, i, b, j);
    ArtistSlashFixed(b, j, a, i);
  }

  /** For a folder name, joining the output root, the artist and the file
      name as `os.path.join` does gives exactly `Name`. */
  lemma JoinMatchesName(artist: string, index: nat)
    requires FolderName(artist)
    ensures Join(Join(OUT_DIR, artist), Decimal(index) + ".jpg") == ImagePath(artist, index).Name()
  {
    assert artist[0] in artist;
    assert artist[|artist| - 1] in artist;
    assert Join(OUT_DIR, artist) == OUT_DIR + "/" + artist;
    var file := Decimal(index) + ".jpg";
    assert file[0] == Decimal(index)[0];
    assert Decimal(index)[0] in Decimal(index);
  }

  /** Why artists must be folder names: the distinct artists "a" and "a/"
      get one and the same file from `os.path.join`. */
  lemma TrailingSlashCollides()
    ensures Join(Join(OUT_DIR, "a/"), "1.jpg") == Join(Join(OUT_DIR, "a"), "1.jpg") == "images/a/1.jpg"
  {
    assert Join(OUT_DIR, "a/") == "images/a/";
    assert Join(OUT_DIR, "a") == "images/a";
    assert Join("images/a/", "1.jpg") == "images/a/1.jpg";
    assert Join("images/a", "1.jpg") == "images/a/1.jpg";
  }
}
