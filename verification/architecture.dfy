/**
 * The closed architecture vocabulary of src/parse/types.rs:124-205: parsing a
 * token into an `Arch`, printing an `Arch` back, and parsing a whole
 * Architecture field into a set.
 */
module Architecture {
  import opened Results
  import opened Errors
  import RustText

  datatype Arch =
    | Any | All | Amd64 | Armel | Armhf | Arm64 | I386 | Ia64
    | KFreeBsdAmd64 | KFreeBsdI386 | Mips | Mipsel | Mips64 | Mips64El
    | Ppc64El | S390X | LinuxAny | X32
    | ParserBug

  /** `fmt::Error`: the printer has nothing to say about an `Arch`. */
  datatype FmtError = FmtError

  /** The eighteen tokens an Architecture field may contain. */
  const Vocabulary: seq<string> := [
    "all", "any", "amd64", "armel", "armhf", "arm64", "ia64", "i386",
    "kfreebsd-amd64", "kfreebsd-i386", "mips", "mipsel", "mips64",
    "mips64el", "ppc64el", "s390x", "linux-any", "x32"
  ]

  /**
   * `Arch::from_str`. Only vocabulary tokens parse (every one does, by
   * `ParseArchIffVocabulary`), each to the architecture that prints as that
   * token; `ParserBug` is never produced.
   */
  function ParseArch(s: string): (r: Result<Arch, Error>)
    ensures r.Ok? ==> r.value != ParserBug && ShowArch(r.value) == Ok(s)
    ensures r.Err? ==> r.error == UnrecognisedArch(s)
  {
    match s
    case "all" => Ok(All)
    case "any" => Ok(Any)
    case "amd64" => Ok(Amd64)
    case "armel" => Ok(Armel)
    case "armhf" => Ok(Armhf)
    case "arm64" => Ok(Arm64)
    case "ia64" => Ok(Ia64)
    case "i386" => Ok(I386)
    case "kfreebsd-amd64" => Ok(KFreeBsdAmd64)
    case "kfreebsd-i386" => Ok(KFreeBsdI386)
    case "mips" => Ok(Mips)
    case "mipsel" => Ok(Mipsel)
    case "mips64" => Ok(Mips64)
    case "mips64el" => Ok(Mips64El)
    case "ppc64el" => Ok(Ppc64El)
    case "s390x" => Ok(S390X)
    case "linux-any" => Ok(LinuxAny)
    case "x32" => Ok(X32)
    case _ => Err(UnrecognisedArch(s))
  }

  /** `impl Display for Arch`: every architecture but `ParserBug` prints as a vocabulary token. */
  function ShowArch(a: Arch): (r: Result<string, FmtError>)
    ensures r.Err? <==> a == ParserBug
  {
    match a
    case All => Ok("all")
    case Any => Ok("any")
    case Amd64 => Ok("amd64")
    case Armel => Ok("armel")
    case Armhf => Ok("armhf")
    case Arm64 => Ok("arm64")
    case I386 => Ok("i386")
    case Ia64 => Ok("ia64")
    case KFreeBsdAmd64 => Ok("kfreebsd-amd64")
    case KFreeBsdI386 => Ok("kfreebsd-i386")
    case Mips => Ok("mips")
    case Mipsel => Ok("mipsel")
    case Mips64 => Ok("mips64")
    case Mips64El => Ok("mips64el")
    case Ppc64El => Ok("ppc64el")
    case S390X => Ok("s390x")
    case LinuxAny => Ok("linux-any")
    case X32 => Ok("x32")
    case ParserBug => Err(FmtError)
  }

  /** What an architecture prints as is a vocabulary token. */
  lemma ShowArchInVocabulary(a: Arch)
    requires a != ParserBug
    ensures ShowArch(a).Ok? && ShowArch(a).value in Vocabulary
  {
  }

  /** A token parses exactly when it belongs to the vocabulary. */
  lemma {:induction false} ParseArchIffVocabulary(s: string)
    ensures ParseArch(s).Ok? <==> s in Vocabulary
  {
    if s in Vocabulary {
      var i :| 0 <= i < |Vocabulary| && Vocabulary[i] == s;
      VocabularyParses(i);
    }
  }

  lemma VocabularyParses(i: nat)
    requires i < |Vocabulary|
    ensures ParseArch(Vocabulary[i]).Ok?
  {
    if i == 0 {
      assert Vocabulary[0] == "all";
      assert ParseArch("all").Ok?;
    } else if i == 1 {
      assert Vocabulary[1] == "any";
      assert ParseArch("any").Ok?;
    } else if i == 2 {
      assert Vocabulary[2] == "amd64";
      assert ParseArch("amd64").Ok?;
    } else if i == 3 {
      assert Vocabulary[3] == "armel";
      assert ParseArch("armel").Ok?;
    } else if i == 4 {
      assert Vocabulary[4] == "armhf";
      assert ParseArch("armhf").Ok?;
    } else if i == 5 {
      assert Vocabulary[5] == "arm64";
      assert ParseArch("arm64").Ok?;
    } else if i == 6 {
      assert Vocabulary[6] == "ia64";
      assert ParseArch("ia64").Ok?;
    } else if i == 7 {
      assert Vocabulary[7] == "i386";
      assert ParseArch("i386").Ok?;
    } else if i == 8 {
      assert Vocabulary[8] == "kfreebsd-amd64";
      assert ParseArch("kfreebsd-amd64").Ok?;
    } else if i == 9 {
      assert Vocabulary[9] == "kfreebsd-i386";
      assert ParseArch("kfreebsd-i386").Ok?;
    } else if i == 10 {
      assert Vocabulary[10] == "mips";
      assert ParseArch("mips").Ok?;
    } else if i == 11 {
      assert Vocabulary[11] == "mipsel";
      assert ParseArch("mipsel").Ok?;
    } else if i == 12 {
      assert Vocabulary[12] == "mips64";
      assert ParseArch("mips64").Ok?;
    } else if i == 13 {
      assert Vocabulary[13] == "mips64el";
      assert ParseArch("mips64el").Ok?;
    } else if i == 14 {
      assert Vocabulary[14] == "ppc64el";
      assert ParseArch("ppc64el").Ok?;
    } else if i == 15 {
      assert Vocabulary[15] == "s390x";
      assert ParseArch("s390x").Ok?;
    } else if i == 16 {
      assert Vocabulary[16] == "linux-any";
      assert ParseArch("linux-any").Ok?;
    } else if i == 17 {
      assert Vocabulary[17] == "x32";
      assert ParseArch("x32").Ok?;
    }
  }

  /** Printing then parsing any architecture other than `ParserBug` gives it back. */
  lemma ShowThenParse(a: Arch)
    requires a != ParserBug
    ensures ShowArch(a).Ok? && ParseArch(ShowArch(a).value) == Ok(a)
  {
  }

  /** The vocabulary has eighteen distinct tokens, so `ParseArch` is one-to-one on it. */
  lemma VocabularyDistinct()
    ensures |Vocabulary| == 18
    ensures forall i, j :: 0 <= i < j < |Vocabulary| ==> Vocabulary[i] != Vocabulary[j]
  {
  }

  /** Parsing is injective: two tokens that parse to the same architecture are equal. */
  lemma ParseInjective(s: string, t: string)
    requires ParseArch(s).Ok? && ParseArch(t).Ok?
    requires ParseArch(s).value == ParseArch(t).value
    ensures s == t
  {
    assert ShowArch(ParseArch(s).value) == Ok(s);
    assert ShowArch(ParseArch(t).value) == Ok(t);
  }

  /**
   * The Architecture field: its whitespace-separated tokens parsed one by one
   * and collected into a set, stopping at the first token outside the
   * vocabulary (the `collect::<Result<HashSet<_>>>` of src/parse/types.rs:313-318).
   */
  function ParseArches(field: string): (r: Result<set<Arch>, Error>)
    ensures r.Ok? <==> forall t :: t in RustText.SplitWhitespace(field) ==> ParseArch(t).Ok?
    ensures r.Ok? ==> ParserBug !in r.value
    ensures r.Ok? ==> forall t :: t in RustText.SplitWhitespace(field) ==> ParseArch(t).value in r.value
    ensures r.Ok? ==> forall a :: a in r.value ==> exists t :: t in RustText.SplitWhitespace(field) && ParseArch(t) == Ok(a)
    ensures r.Err? ==> exists t :: t in RustText.SplitWhitespace(field) && ParseArch(t).Err? && r.error == UnrecognisedArch(t)
    ensures r.Err? ==>
              exists i :: 0 <= i < |RustText.SplitWhitespace(field)|
                          && r.error == UnrecognisedArch(RustText.SplitWhitespace(field)[i])
                          && forall j :: 0 <= j < i ==> ParseArch(RustText.SplitWhitespace(field)[j]).Ok?
  {
    CollectArchesFirstFailure(RustText.SplitWhitespace(field));
    CollectArches(RustText.SplitWhitespace(field))
  }

  /** `collect` stops at the first token that fails and reports that token. */
  lemma {:induction false} CollectArchesFirstFailure(tokens: seq<string>)
    ensures CollectArches(tokens).Err? ==>
              exists i :: 0 <= i < |tokens| && ParseArch(tokens[i]).Err?
                          && CollectArches(tokens).error == UnrecognisedArch(tokens[i])
                          && forall j :: 0 <= j < i ==> ParseArch(tokens[j]).Ok?
    decreases |tokens|
  {
    if |tokens| > 0 && ParseArch(tokens[0]).Ok? && CollectArches(tokens).Err? {
      CollectArchesFirstFailure(tokens[1..]);
      var i :| 0 <= i < |tokens[1..]| && ParseArch(tokens[1..][i]).Err?
               && CollectArches(tokens[1..]).error == UnrecognisedArch(tokens[1..][i])
               && forall j :: 0 <= j < i ==> ParseArch(tokens[1..][j]).Ok?;
      assert tokens[i + 1] == tokens[1..][i];
      forall j | 0 <= j < i + 1 ensures ParseArch(tokens[j]).Ok? {
        if j > 0 {
          assert tokens[j] == tokens[1..][j - 1];
        }
      }
    }
  }

  function CollectArches(tokens: seq<string>): (r: Result<set<Arch>, Error>)
    ensures r.Ok? <==> forall t :: t in tokens ==> ParseArch(t).Ok?
    ensures r.Ok? ==> ParserBug !in r.value
    ensures r.Ok? ==> forall t :: t in tokens ==> ParseArch(t).value in r.value
    ensures r.Ok? ==> forall a :: a in r.value ==> exists t :: t in tokens && ParseArch(t) == Ok(a)
    ensures r.Err? ==> exists t :: t in tokens && ParseArch(t).Err? && r.error == UnrecognisedArch(t)
    decreases |tokens|
  {
    if |tokens| == 0 then Ok({})
    else
      var a :- ParseArch(tokens[0]);
      var rest :- CollectArches(tokens[1..]);
      assert forall t :: t in tokens ==> t == tokens[0] || t in tokens[1..];
      Ok({a} + rest)
  }

  /**
   * Non-empty and made of printable ASCII characters other than space. It
   * models nothing in the source: `VocabularyWords` uses it as a stepping
   * stone, since each character range check rules out every whitespace
   * code point at once.
   */
  predicate Visible(w: string) {
    |w| > 0 && forall j :: 0 <= j < |w| ==> '!' <= w[j] <= '~'
  }

  /** No architecture token contains whitespace. */
  lemma VocabularyWords()
    ensures forall i :: 0 <= i < |Vocabulary| ==> RustText.IsWord(Vocabulary[i])
  {
    forall i | 0 <= i < |Vocabulary| ensures RustText.IsWord(Vocabulary[i]) {
      assert Visible(Vocabulary[i]);
    }
  }

  /** A field holding one recognised token parses to exactly that architecture. */
  lemma ParseArchesSingle(token: string)
    requires ParseArch(token).Ok?
    ensures ParseArches(token) == Ok({ParseArch(token).value})
  {
    ParseArchIffVocabulary(token);
    VocabularyWords();
    var i :| 0 <= i < |Vocabulary| && Vocabulary[i] == token;
    RustText.SplitWord(token);
    assert [token][1..] == [];
    assert CollectArches([token]) == Ok({ParseArch(token).value} + {});
    assert {ParseArch(token).value} + {} == {ParseArch(token).value};
  }
}
