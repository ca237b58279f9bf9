/**
 * The record `sync` pushes for each write-up (scripts/sync-machines.js,
 * lines 75-94): every field is read from the frontmatter map, with
 * JavaScript's `fm.key || fallback` supplying a default when the key is
 * missing or its value is the empty string.
 */
module Machines {
  import opened Wrappers
  import opened JsStrings

  /**
   * The five skill scores. Each is `parseInt(...) * 10`; `None` stands for
   * `NaN`, which `JSON.stringify` writes as `null`.
   */
  datatype Matrix = Matrix(ENUM: Option<int>, REAL: Option<int>, CVE: Option<int>, CUSTOM: Option<int>, CTF: Option<int>)

  /** One entry of the machines list, field for field. */
  datatype Machine = Machine(
    id: string,
    title: string,
    os: string,
    difficulty: string,
    pwnedDate: string,
    avatar: string,
    description: string,
    matrix: Matrix,
    folder: string)

  const DefaultScore: string := "50"
  const DefaultOs: string := "Linux"
  const DefaultDate: string := "2000-01-01"
  const Extension: string := ".md"
  /** Where the repository keeps the machines' logos. */
  const AvatarPrefix: string :=
    "https://raw.githubusercontent.com/DiogoCoutoooo/Cybersec-Obsidian/main/Tought%20Process/!Media/!Logo_"
  const AvatarSuffix: string := ".png"
  const DescriptionPrefix: string := "Write-up and thought process for "

  /**
   * `fm[key] || fallback`: the frontmatter value when the key is present
   * with a non-empty value, the fallback otherwise.
   */
  function Field(fm: map<string, string>, key: string, fallback: string): (v: string)
    ensures key in fm && fm[key] != [] ==> v == fm[key]
    ensures key !in fm || fm[key] == [] ==> v == fallback
    ensures v == [] ==> fallback == []
  {
    if key in fm && fm[key] != [] then fm[key] else fallback
  }

  /** `parseInt(fm[key] || '50') * 10`: a multiple of ten, or `NaN`. */
  function Score(fm: map<string, string>, key: string): (r: Option<int>)
    ensures r.Some? ==> r.value % 10 == 0
  {
    match ParseInt(Field(fm, key, DefaultScore))
    case None => None
    case Some(n) => Some(n * 10)
  }

  /** The `name` field, or the file name with its first ".md" removed. */
  function Title(fm: map<string, string>, fileName: string): (t: string)
    ensures "name" in fm && fm["name"] != [] ==> t == fm["name"]
    ensures "name" !in fm || fm["name"] == [] ==> t == RemoveFirst(fileName, Extension)
  {
    Field(fm, "name", RemoveFirst(fileName, Extension))
  }

  /** The five scores, each read from its own `matrix_*` key. */
  function MatrixOf(fm: map<string, string>): (m: Matrix)
    ensures m.ENUM == Score(fm, "matrix_enum")
    ensures m.REAL == Score(fm, "matrix_real")
    ensures m.CVE == Score(fm, "matrix_cve")
    ensures m.CUSTOM == Score(fm, "matrix_custom")
    ensures m.CTF == Score(fm, "matrix_ctf")
  {
    Matrix(
      Score(fm, "matrix_enum"),
      Score(fm, "matrix_real"),
      Score(fm, "matrix_cve"),
      Score(fm, "matrix_custom"),
      Score(fm, "matrix_ctf"))
  }

  /** The record built for the write-up `fileName` of `folder` from its frontmatter. */
  function Record(folder: string, fileName: string, fm: map<string, string>): (m: Machine)
    ensures m.folder == folder
  {
    var title := Title(fm, fileName);
    Machine(
      ToLower(title),
      title,
      Field(fm, "os", DefaultOs),
      Field(fm, "difficulty", folder),
      Field(fm, "pwn_date", DefaultDate),
      AvatarPrefix + title + AvatarSuffix,
      Field(fm, "summary", DescriptionPrefix + title + "."),
      MatrixOf(fm),
      folder)
  }

  /**
   * Which frontmatter key feeds each field of the record, and what the field
   * falls back to when that key is missing or empty, whatever else the
   * header holds.
   */
  lemma RecordFields(folder: string, fileName: string, fm: map<string, string>)
    ensures var m := Record(folder, fileName, fm);
            && m.title == Title(fm, fileName)
            && m.id == ToLower(m.title)
            && ("os" in fm && fm["os"] != [] ==> m.os == fm["os"])
            && ("os" !in fm || fm["os"] == [] ==> m.os == "Linux")
            && ("difficulty" in fm && fm["difficulty"] != [] ==> m.difficulty == fm["difficulty"])
            && ("difficulty" !in fm || fm["difficulty"] == [] ==> m.difficulty == folder)
            && ("pwn_date" in fm && fm["pwn_date"] != [] ==> m.pwnedDate == fm["pwn_date"])
            && ("pwn_date" !in fm || fm["pwn_date"] == [] ==> m.pwnedDate == "2000-01-01")
            && ("summary" in fm && fm["summary"] != [] ==> m.description == fm["summary"])
            && ("summary" !in fm || fm["summary"] == [] ==> m.description == DescriptionPrefix + m.title + ".")
            && m.avatar == AvatarPrefix + m.title + ".png"
            && m.matrix == MatrixOf(fm)
            && m.folder == folder
  {
  }

  /**
   * The id is the title in lower case: as long as the title, without a
   * capital letter, equal to the title wherever the title has none, with
   * each capital of the title replaced by its small letter, and unchanged
   * by lowering it again.
   */
  lemma IdIsLowerTitle(folder: string, fileName: string, fm: map<string, string>)
    ensures var m := Record(folder, fileName, fm);
            && |m.id| == |m.title|
            && (forall i :: 0 <= i < |m.id| ==> !IsUpper(m.id[i]))
            && (forall i :: 0 <= i < |m.id| && !IsUpper(m.title[i]) ==> m.id[i] == m.title[i])
            && (forall i :: 0 <= i < |m.id| && IsUpper(m.title[i]) ==> m.id[i] as int == m.title[i] as int + 32)
            && ToLower(m.id) == m.id
  {
    var m := Record(folder, fileName, fm);
    assert m.id == ToLower(m.title);
    ToLowerIdempotent(m.title);
  }

  /**
   * Two records share an id exactly when their titles differ only in the
   * case of their letters: the id does not tell such machines apart.
   */
  lemma IdIgnoresCase(folder1: string, name1: string, fm1: map<string, string>,
                      folder2: string, name2: string, fm2: map<string, string>)
    ensures var t1, t2 := Title(fm1, name1), Title(fm2, name2);
            Record(folder1, name1, fm1).id == Record(folder2, name2, fm2).id
            <==> |t1| == |t2| && forall i :: 0 <= i < |t1| ==> SameUpToCase(t1[i], t2[i])
  {
    ToLowerEqual(Title(fm1, name1), Title(fm2, name2));
  }

  /**
   * Every text field falls back to a non-empty default, so only the title
   * (and with it the id) can be empty, and the difficulty only when the
   * folder name is.
   */
  lemma FieldsNeverEmpty(folder: string, fileName: string, fm: map<string, string>)
    requires folder != []
    ensures var m := Record(folder, fileName, fm);
            m.os != [] && m.difficulty != [] && m.pwnedDate != [] && m.description != []
  {
  }

  /**
   * A write-up without frontmatter: the title is the file name with its
   * first ".md" removed, every score is 500, the difficulty is the folder
   * and the remaining fields take their defaults.
   */
  lemma EmptyFrontmatter(folder: string, fileName: string)
    ensures var m := Record(folder, fileName, map[]);
            var title := RemoveFirst(fileName, Extension);
            && m.title == title
            && m.os == "Linux"
            && m.difficulty == folder
            && m.pwnedDate == "2000-01-01"
            && m.avatar == AvatarPrefix + title + ".png"
            && m.description == "Write-up and thought process for " + title + "."
            && m.matrix == Matrix(Some(500), Some(500), Some(500), Some(500), Some(500))
  {
    ParseFifty();
  }

  /**
   * Without a `name` field, a file whose only ".md" is its extension is
   * titled by its stem: "Forge.md" becomes "Forge".
   */
  lemma TitleFromFileName(stem: string, fm: map<string, string>)
    requires "name" !in fm || fm["name"] == []
    requires forall i :: 0 <= i < |stem| ==> !OccursAt(stem + Extension, Extension, i)
    ensures Title(fm, stem + Extension) == stem
  {
    assert stem + Extension + [] == stem + Extension;
    assert stem + [] == stem;
    TitleDropsFirstExtension(fm, stem, []);
  }

  /**
   * Without a `name` field, the first ".md" of the file name is cut out,
   * wherever it stands: `pre + ".md" + post` is titled `pre + post` when
   * no ".md" starts inside `pre` ("my.md-notes.md" becomes "my-notes.md").
   */
  lemma TitleDropsFirstExtension(fm: map<string, string>, pre: string, post: string)
    requires "name" !in fm || fm["name"] == []
    requires forall i :: 0 <= i < |pre| ==> !OccursAt(pre + Extension + post, Extension, i)
    ensures Title(fm, pre + Extension + post) == pre + post
  {
    RemoveFirstAt(pre, Extension, post);
  }

  /** A non-empty `name` field is the title whatever the file is called. */
  lemma TitleFromName(folder: string, fileName: string, fm: map<string, string>)
    requires "name" in fm && fm["name"] != []
    ensures Record(folder, fileName, fm).title == fm["name"]
    ensures Record(folder, fileName, fm).avatar == AvatarPrefix + fm["name"] + ".png"
  {
  }

  /**
   * A score written as a decimal number, possibly followed by text that does
   * not continue it ("7/10", "8 out of 10"), counts ten times that number.
   */
  lemma ScoreOfDecimal(fm: map<string, string>, key: string, n: int, rest: string)
    requires key in fm && fm[key] == IntToDecimal(n) + rest
    requires rest == [] || DigitValue(rest[0]) >= 10
    requires n == 0 && rest != [] ==> rest[0] != 'x' && rest[0] != 'X'
    ensures Score(fm, key) == Some(10 * n)
  {
    ParseIntDecimal(n, rest);
    ScoreOfParsed(fm, key, n);
  }

  /**
   * A score written by hand (leading whitespace, a sign, leading zeros, then
   * the digits and anything that does not continue them, as in " +07/10")
   * counts ten times its signed value.
   */
  lemma ScoreOfWritten(fm: map<string, string>, key: string,
                       ws: string, sign: string, zeros: string, n: nat, rest: string)
    requires key in fm && fm[key] == ws + sign + (zeros + NatToDecimal(n) + rest)
    requires AllSpace(ws)
    requires sign == "" || sign == "+" || sign == "-"
    requires AllZeros(zeros)
    requires rest == [] || DigitValue(rest[0]) >= 10
    requires zeros == [] && n == 0 && rest != [] ==> rest[0] != 'x' && rest[0] != 'X'
    ensures Score(fm, key) == Some(10 * if sign == "-" then -(n as int) else n)
  {
    ParseIntWritten(ws, sign, zeros, n, rest);
    ScoreOfParsed(fm, key, if sign == "-" then -(n as int) else n);
  }

  /** A hexadecimal score ("0x0A") counts ten times its base-16 value. */
  lemma ScoreOfHex(fm: map<string, string>, key: string,
                   ws: string, sign: string, x: char, digits: string, rest: string, n: nat)
    requires key in fm && fm[key] == ws + sign + (['0', x] + digits + rest)
    requires AllSpace(ws)
    requires sign == "" || sign == "+" || sign == "-"
    requires x == 'x' || x == 'X'
    requires digits != [] && forall i :: 0 <= i < |digits| ==> DigitValue(digits[i]) < 16
    requires rest == [] || DigitValue(rest[0]) >= 16
    requires n == DigitsValue(digits, 16)
    ensures Score(fm, key) == Some(10 * if sign == "-" then -(n as int) else n)
  {
    ParseIntHex(ws, sign, x, digits, rest, n);
    ScoreOfParsed(fm, key, if sign == "-" then -(n as int) else n);
  }

  /** A non-empty score field counts ten times what `parseInt` reads from it. */
  lemma ScoreOfParsed(fm: map<string, string>, key: string, v: int)
    requires key in fm && ParseInt(fm[key]) == Some(v)
    ensures Score(fm, key) == Some(10 * v)
  {
    assert Field(fm, key, DefaultScore) == fm[key];
  }

  /** A score that is missing or empty counts 500. */
  lemma ScoreDefault(fm: map<string, string>, key: string)
    requires key !in fm || fm[key] == []
    ensures Score(fm, key) == Some(500)
  {
    ParseFifty();
  }

  /** A score written without any decimal digit is `NaN`. */
  lemma ScoreNeedsDigit(fm: map<string, string>, key: string)
    requires key in fm && fm[key] != []
    requires Score(fm, key).Some?
    ensures exists i :: 0 <= i < |fm[key]| && '0' <= fm[key][i] <= '9'
  {
    ParseIntNeedsDigit(fm[key]);
  }

  /** A score with no digits where `parseInt` looks for them is `NaN`. */
  lemma ScoreNotANumber(fm: map<string, string>, key: string)
    requires key in fm && fm[key] != []
    requires var t := TrimStart(fm[key]);
             var u := if t != [] && (t[0] == '-' || t[0] == '+') then t[1..] else t;
             u == [] || DigitValue(u[0]) >= 10
    ensures Score(fm, key) == None
  {
  }
}
