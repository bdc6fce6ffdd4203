/** Configuration constants and the small helpers of the `Config` class
    (src/config.py). Directory paths are strings; the repository root, a
    property of the installation, is a parameter. */
module Config {
  import opened Strings
  import opened Values

  /** `Config.MINISTRIES`, in the configured order. */
  const Ministries: seq<string> := [
    "Ministry of Agriculture and Farmers Welfare",
    "Ministry of Chemicals and Fertilizers",
    "Ministry of Civil Aviation",
    "Ministry of Coal",
    "Ministry of Commerce and Industry",
    "Ministry of Communications",
    "Ministry of Consumer Affairs, Food and Public Distribution",
    "Ministry of Corporate Affairs",
    "Ministry of Culture",
    "Ministry of Defence",
    "Ministry of Development of North Eastern Region",
    "Ministry of Earth Sciences",
    "Ministry of Education",
    "Ministry of Electronics and Information Technology",
    "Ministry of Environment, Forest and Climate Change",
    "Ministry of External Affairs",
    "Ministry of Finance",
    "Ministry of Fisheries, Animal Husbandry and Dairying",
    "Ministry of Food Processing Industries",
    "Ministry of Health and Family Welfare",
    "Ministry of Heavy Industries",
    "Ministry of Home Affairs",
    "Ministry of Housing and Urban Affairs",
    "Ministry of Information and Broadcasting",
    "Ministry of Jal Shakti",
    "Ministry of Labour and Employment",
    "Ministry of Law and Justice",
    "Ministry of Micro, Small and Medium Enterprises",
    "Ministry of Mines",
    "Ministry of Minority Affairs",
    "Ministry of New and Renewable Energy",
    "Ministry of Panchayati Raj",
    "Ministry of Parliamentary Affairs",
    "Ministry of Personnel, Public Grievances and Pensions",
    "Ministry of Petroleum and Natural Gas",
    "Ministry of Power",
    "Ministry of Railways",
    "Ministry of Road Transport and Highways",
    "Ministry of Rural Development",
    "Ministry of Science and Technology",
    "Ministry of Ports, Shipping and Waterways",
    "Ministry of Skill Development and Entrepreneurship",
    "Ministry of Social Justice and Empowerment",
    "Ministry of Statistics and Programme Implementation",
    "Ministry of Steel",
    "Ministry of Textiles",
    "Ministry of Tourism",
    "Ministry of Tribal Affairs",
    "Ministry of Women and Child Development",
    "Ministry of Youth Affairs and Sports",
    "Prime Minister's Office",
    "NITI Aayog"
  ]

  const UnknownMinistry: string := "Unknown Ministry"
  const DefaultSession: nat := 4
  /** `str(Config.DEFAULT_SESSION)` (see `DefaultSessionTextIsShown`). */
  const DefaultSessionText: string := "4"
  const ChunkSize: nat := 1000
  const ChunkOverlap: nat := 200
  const MaxDocsPerQuery: nat := 10

  /** What `Config.sanitize_ministry_name` does to one character. */
  function SanitizeChar(c: char): string {
    if c == ' ' then "_" else if c == ',' || c == '\'' then "" else [c]
  }

  /** `Config.sanitize_ministry_name`: spaces become underscores, then commas
      and apostrophes are removed. */
  function SanitizeMinistryName(ministry: string): (r: string)
    ensures ' ' !in r && ',' !in r && '\'' !in r
  {
    RemoveChar(RemoveChar(ReplaceChar(ministry, ' ', "_"), ','), '\'')
  }

  lemma {:induction false} ReplaceCharConcat(x: string, y: string, c: char, r: string)
    ensures ReplaceChar(x + y, c, r) == ReplaceChar(x, c, r) + ReplaceChar(y, c, r)
  {
    if x != [] {
      assert (x + y)[1..] == x[1..] + y;
      ReplaceCharConcat(x[1..], y, c, r);
    } else {
      assert x + y == y;
    }
  }

  lemma {:induction false} RemoveCharConcat(x: string, y: string, c: char)
    ensures RemoveChar(x + y, c) == RemoveChar(x, c) + RemoveChar(y, c)
  {
    if x != [] {
      assert (x + y)[1..] == x[1..] + y;
      RemoveCharConcat(x[1..], y, c);
    } else {
      assert x + y == y;
    }
  }

  /** Sanitising works character by character, left to right: each space becomes
      exactly one underscore, commas and apostrophes vanish, every other
      character is kept in place. */
  lemma SanitizeCons(c: char, s: string)
    ensures SanitizeMinistryName([c] + s) == SanitizeChar(c) + SanitizeMinistryName(s)
  {
    var head := if c == ' ' then "_" else [c];
    assert ([c] + s)[1..] == s;
    assert ReplaceChar([c] + s, ' ', "_") == head + ReplaceChar(s, ' ', "_");
    var x := ReplaceChar(s, ' ', "_");
    RemoveCharConcat(head, x, ',');
    var head2 := RemoveChar(head, ',');
    assert head2 == if c == ',' then "" else head;
    RemoveCharConcat(head2, RemoveChar(x, ','), '\'');
    assert RemoveChar(head2, '\'') == SanitizeChar(c);
  }

  /** The output is as long as the input less its commas and apostrophes. */
  lemma {:induction false} SanitizeLength(s: string)
    ensures |SanitizeMinistryName(s)| == |s| - CountChar(s, ',') - CountChar(s, '\'')
  {
    if s != [] {
      SanitizeCons(s[0], s[1..]);
      assert [s[0]] + s[1..] == s;
      SanitizeLength(s[1..]);
    }
  }

  /** Sanitising leaves a sanitised name as it is. */
  lemma SanitizeIdempotent(s: string)
    ensures SanitizeMinistryName(SanitizeMinistryName(s)) == SanitizeMinistryName(s)
  {
    var r := SanitizeMinistryName(s);
    ReplaceCharAbsent(r, ' ', "_");
    RemoveCharAbsent(r, ',');
    RemoveCharAbsent(r, '\'');
  }

  /** `Path(dir) / name`: an absolute `name` replaces `dir`, an empty one adds nothing. */
  function JoinPath(dir: string, name: string): (p: string)
    ensures name != [] && name[0] != '/' ==> p == dir + "/" + name
  {
    if name == [] then dir else if name[0] == '/' then name else dir + "/" + name
  }

  /** The components of `Config.MINISTRY_PDF_DIR` below the repository root. */
  const DataDirName: string := "data"
  const MinistryPdfDirName: string := "ministry_pdfs"

  /** `Config.MINISTRY_PDF_DIR`, under the repository root `baseDir`. */
  function MinistryPdfDir(baseDir: string): string {
    JoinPath(JoinPath(baseDir, DataDirName), MinistryPdfDirName)
  }

  /** `Config.get_ministry_dir` */
  function GetMinistryDir(baseDir: string, ministry: string): string {
    JoinPath(MinistryPdfDir(baseDir), SanitizeMinistryName(ministry))
  }

  /** The directory of a ministry whose sanitised name is a plain non-empty
      component is that component under `data/ministry_pdfs` of the root. */
  lemma MinistryDirIsChild(baseDir: string, ministry: string)
    requires SanitizeMinistryName(ministry) != "" && SanitizeMinistryName(ministry)[0] != '/'
    ensures GetMinistryDir(baseDir, ministry)
         == baseDir + "/" + DataDirName + "/" + MinistryPdfDirName + "/" + SanitizeMinistryName(ministry)
  {
    PdfDirChild(baseDir, SanitizeMinistryName(ministry));
  }

  lemma PdfDirChild(baseDir: string, name: string)
    requires name != [] && name[0] != '/'
    ensures JoinPath(MinistryPdfDir(baseDir), name) == baseDir + "/" + DataDirName + "/" + MinistryPdfDirName + "/" + name
  {
    assert DataDirName[0] != '/' && MinistryPdfDirName[0] != '/';
  }

  /** `Config.validate_environment`, given the value of `GEMINI_API_KEY`. */
  function ValidateEnvironment(geminiApiKey: Option<string>): (ok: bool)
    ensures !ok <==> geminiApiKey == None || geminiApiKey == Some("")
  {
    Truthy(geminiApiKey)
  }

  lemma DefaultSessionTextIsShown()
    ensures DefaultSessionText == NatToString(DefaultSession)
  {
  }
}
