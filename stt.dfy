/** The configuration and token checks of the security testing toolkit
    (src/components/STT.jsx): a fixed table of weak algorithms, key lengths
    and modes, the rule that merges risk levels, and the format check on
    JSON Web Tokens. */
module Stt {
  import opened Wrappers

  // ---------------------------------------------------------------------
  // Risk levels

  /** The listed risk levels, least severe first. */
  const RiskLevels: seq<string> := ["low", "medium", "high", "critical"]

  predicate IsListed(level: string)
  {
    level in RiskLevels
  }

  /** riskLevels.indexOf(level): the position of a listed level, -1 for any
      other string (such as "none"). */
  function Rank(level: string): (r: int)
    ensures -1 <= r < |RiskLevels|
    ensures r >= 0 <==> IsListed(level)
    ensures r >= 0 ==> RiskLevels[r] == level
  {
    if level == "low" then 0
    else if level == "medium" then 1
    else if level == "high" then 2
    else if level == "critical" then 3
    else -1
  }

  function Max(a: int, b: int): int
  {
    if a >= b then a else b
  }

  /** upgradeRisk: the more severe of two levels. An unlisted level has
      index -1 and so never wins; when neither is listed the lookup is
      riskLevels[-1], which is undefined (None). */
  function UpgradeRisk(current: string, newRisk: string): (r: Option<string>)
    ensures r.None? <==> !IsListed(current) && !IsListed(newRisk)
    ensures r.Some? ==> IsListed(r.value) && (r.value == current || r.value == newRisk)
    ensures r.Some? ==> Rank(current) <= Rank(r.value) && Rank(newRisk) <= Rank(r.value)
  {
    var index := Max(Rank(current), Rank(newRisk));
    if index < 0 then None else Some(RiskLevels[index])
  }

  /** A level that is not listed (AES-256's "none") leaves the current,
      listed level as it is. */
  lemma UnlistedKeepsCurrent(current: string, newRisk: string)
    requires IsListed(current) && !IsListed(newRisk)
    ensures UpgradeRisk(current, newRisk) == Some(current)
  {
  }

  /** upgradeRisk is commutative on all strings. */
  lemma UpgradeRiskCommutes(a: string, b: string)
    ensures UpgradeRisk(a, b) == UpgradeRisk(b, a)
  {
  }

  /** ... idempotent on the listed levels ... */
  lemma UpgradeRiskIdempotent(a: string)
    requires IsListed(a)
    ensures UpgradeRisk(a, a) == Some(a)
  {
    assert RiskLevels[Rank(a)] == a;
  }

  /** ... and associative, so the order in which matches raise the level
      does not change the outcome. */
  lemma UpgradeRiskAssociates(a: string, b: string, c: string)
    requires IsListed(a) && IsListed(b) && IsListed(c)
    ensures UpgradeRisk(UpgradeRisk(a, b).value, c) == UpgradeRisk(a, UpgradeRisk(b, c).value)
  {
    assert Rank(UpgradeRisk(a, b).value) == Max(Rank(a), Rank(b)) by {
      RanksDiffer(a, b, UpgradeRisk(a, b).value);
    }
    assert Rank(UpgradeRisk(b, c).value) == Max(Rank(b), Rank(c)) by {
      RanksDiffer(b, c, UpgradeRisk(b, c).value);
    }
  }

  /** The level upgradeRisk picks has the larger of the two ranks. */
  lemma RanksDiffer(a: string, b: string, r: string)
    requires IsListed(r) && (r == a || r == b) && Rank(a) <= Rank(r) && Rank(b) <= Rank(r)
    ensures Rank(r) == Max(Rank(a), Rank(b))
  {
  }

  // ---------------------------------------------------------------------
  // The table of weak configurations

  /** One table entry: its risk and the issues it reports. */
  datatype VulnInfo = VulnInfo(risk: string, issues: seq<string>)

  /** vulnerableConfigs: entries by algorithm, by algorithm then key
      length (property names, hence strings), and by mode. */
  datatype VulnerableConfigs = VulnerableConfigs(
    algorithms: map<string, VulnInfo>,
    keyLengths: map<string, map<string, VulnInfo>>,
    modes: map<string, VulnInfo>)

  /** The table the toolkit's constructor builds. */
  const DefaultConfigs := VulnerableConfigs(
    map[
      "DES" := VulnInfo("critical", ["Broken algorithm", "Vulnerable to brute force", "Should never be used"]),
      "RC4" := VulnInfo("critical", ["Multiple cryptographic weaknesses", "Prohibited in TLS"]),
      "MD5" := VulnInfo("critical", ["Cryptographically broken", "Vulnerable to collisions"]),
      "3DES" := VulnInfo("high", ["Legacy algorithm", "Performance issues", "Sweet32 vulnerability"])
    ],
    map[
      "RSA" := map[
        "512" := VulnInfo("critical", ["Easily factored", "Completely insecure"]),
        "1024" := VulnInfo("high", ["Below minimum recommendations", "Potentially factored by state actors"]),
        "2048" := VulnInfo("medium", ["Minimum recommended length", "May need upgrade in future"])
      ],
      "AES" := map[
        "128" := VulnInfo("low", ["Sufficient for most current applications"]),
        "256" := VulnInfo("none", [])
      ]
    ],
    map[
      "ECB" := VulnInfo("critical", ["Does not provide semantic security", "Reveals patterns in data"])
    ])

  /** The configuration under analysis. */
  datatype Config = Config(algorithm: string, keyLength: string, mode: string, padding: string)

  /** The report: the merged risk, the issues and the warnings. */
  datatype Analysis = Analysis(riskLevel: string, issues: seq<string>, warnings: seq<string>)

  const PkcsPadding := "PKCS1v1.5"
  const PkcsWarning := "PKCS1v1.5 padding is vulnerable to padding oracle attacks"

  function AlgorithmEntry(t: VulnerableConfigs, config: Config): Option<VulnInfo>
  {
    if config.algorithm in t.algorithms then Some(t.algorithms[config.algorithm]) else None
  }

  /** keyLengths[algorithm]?.[keyLength] */
  function KeyLengthEntry(t: VulnerableConfigs, config: Config): Option<VulnInfo>
  {
    if config.algorithm in t.keyLengths && config.keyLength in t.keyLengths[config.algorithm]
    then Some(t.keyLengths[config.algorithm][config.keyLength])
    else None
  }

  function ModeEntry(t: VulnerableConfigs, config: Config): Option<VulnInfo>
  {
    if config.mode in t.modes then Some(t.modes[config.mode]) else None
  }

  /** The issues an entry contributes: its own, or none when nothing
      matched. */
  function IssuesOf(entry: Option<VulnInfo>): seq<string>
  {
    if entry.Some? then entry.value.issues else []
  }

  /** The risks that raise the level: those of the matched entries in the
      order they are checked, then "medium" for PKCS1v1.5 padding. */
  function MatchedRisks(t: VulnerableConfigs, config: Config): (risks: seq<string>)
    ensures |risks| <= 4
  {
    RiskOf(AlgorithmEntry(t, config)) + RiskOf(KeyLengthEntry(t, config)) + RiskOf(ModeEntry(t, config)) +
    (if config.padding == PkcsPadding then ["medium"] else [])
  }

  /** The risk an entry contributes, if it matched. */
  function RiskOf(entry: Option<VulnInfo>): (risks: seq<string>)
    ensures |risks| <= 1
  {
    if entry.Some? then [entry.value.risk] else []
  }

  /** What the running level of analyzeConfiguration satisfies after the
      risks in matched were merged into it. */
  predicate MergedLevel(level: string, matched: seq<string>)
  {
    IsListed(level) &&
    (forall risk <- matched :: Rank(risk) <= Rank(level)) &&
    (level == "low" || level in matched)
  }

  /** Merging one more risk keeps MergedLevel. */
  lemma MergeStep(level: string, matched: seq<string>, risk: string)
    requires MergedLevel(level, matched)
    ensures UpgradeRisk(level, risk).Some?
    ensures MergedLevel(UpgradeRisk(level, risk).value, matched + [risk])
  {
    var next := UpgradeRisk(level, risk).value;
    forall r <- matched + [risk]
      ensures Rank(r) <= Rank(next)
    {
      if r in matched {
        assert Rank(r) <= Rank(level);
      }
    }
  }

  /** One table check of analyzeConfiguration: a matched entry appends
      its issues and raises the level to its risk. */
  method ApplyEntry(entry: Option<VulnInfo>, issues: seq<string>, level: string, ghost matched: seq<string>)
    returns (issues': seq<string>, level': string, ghost matched': seq<string>)
    requires MergedLevel(level, matched)
    ensures issues' == issues + IssuesOf(entry)
    ensures matched' == matched + RiskOf(entry)
    ensures MergedLevel(level', matched')
  {
    issues', level', matched' := issues, level, matched;
    if entry.Some? {
      issues' := issues + entry.value.issues;
      MergeStep(level, matched, entry.value.risk);
      level' := UpgradeRisk(level, entry.value.risk).value;
      matched' := matched + [entry.value.risk];
    }
  }

  /** The toolkit; its table is set once, by the constructor. */
  class SecurityToolkit {
    const vulnerableConfigs: VulnerableConfigs

    constructor()
      ensures vulnerableConfigs == DefaultConfigs
    {
      vulnerableConfigs := DefaultConfigs;
    }

    /** analyzeConfiguration: the issues of the algorithm, key-length and
      mode entries, in that order and each in table order; one warning for
      PKCS1v1.5 padding; and a risk that starts at "low" and is the most
      severe listed risk among the matches. */
    method AnalyzeConfiguration(config: Config) returns (a: Analysis)
      ensures a.issues == IssuesOf(AlgorithmEntry(vulnerableConfigs, config)) +
                          IssuesOf(KeyLengthEntry(vulnerableConfigs, config)) +
                          IssuesOf(ModeEntry(vulnerableConfigs, config))
      ensures a.warnings == if config.padding == PkcsPadding then [PkcsWarning] else []
      ensures MergedLevel(a.riskLevel, MatchedRisks(vulnerableConfigs, config))
    {
      var issues: seq<string> := [];
      var warnings: seq<string> := [];
      var riskLevel := "low";
      ghost var matched: seq<string> := [];
      assert MergedLevel(riskLevel, matched);
      issues, riskLevel, matched := ApplyEntry(AlgorithmEntry(vulnerableConfigs, config), issues, riskLevel, matched);
      issues, riskLevel, matched := ApplyEntry(KeyLengthEntry(vulnerableConfigs, config), issues, riskLevel, matched);
      issues, riskLevel, matched := ApplyEntry(ModeEntry(vulnerableConfigs, config), issues, riskLevel, matched);
      if config.padding == PkcsPadding {
        warnings := warnings + [PkcsWarning];
        MergeStep(riskLevel, matched, "medium");
        riskLevel := UpgradeRisk(riskLevel, "medium").value;
        matched := matched + ["medium"];
      }
      assert matched == MatchedRisks(vulnerableConfigs, config);
      a := Analysis(riskLevel, issues, warnings);
    }
  }

  /** MergedLevel pins the level down: there is one merged level for any
      list of risks, so the postcondition of AnalyzeConfiguration fixes
      its riskLevel. */
  lemma MergedLevelUnique(level1: string, level2: string, matched: seq<string>)
    requires MergedLevel(level1, matched) && MergedLevel(level2, matched)
    ensures level1 == level2
  {
    assert Rank(level2) <= Rank(level1);
    assert Rank(level1) <= Rank(level2);
    assert RiskLevels[Rank(level1)] == level1 && RiskLevels[Rank(level2)] == level2;
  }

  /** A configuration that matches no entry and uses other padding is
      reported as low risk with no issue and no warning. */
  lemma NothingMatched(t: VulnerableConfigs, config: Config)
    requires AlgorithmEntry(t, config).None? && KeyLengthEntry(t, config).None?
    requires ModeEntry(t, config).None? && config.padding != PkcsPadding
    ensures IssuesOf(AlgorithmEntry(t, config)) + IssuesOf(KeyLengthEntry(t, config)) +
            IssuesOf(ModeEntry(t, config)) == []
    ensures MatchedRisks(t, config) == [] && MergedLevel("low", MatchedRisks(t, config))
  {
  }

  /** With PKCS1v1.5 padding the merged level is at least "medium". */
  lemma PkcsAtLeastMedium(t: VulnerableConfigs, config: Config, level: string)
    requires config.padding == PkcsPadding && MergedLevel(level, MatchedRisks(t, config))
    ensures Rank(level) >= Rank("medium")
  {
    var risks := MatchedRisks(t, config);
    assert risks[|risks| - 1] == "medium";
  }

  /** In the default table DES in ECB mode is critical, with the
      algorithm's issues before the mode's. */
  lemma DesEcbIsCritical()
    ensures var config := Config("DES", "56", "ECB", "None");
      MergedLevel("critical", MatchedRisks(DefaultConfigs, config)) &&
      IssuesOf(AlgorithmEntry(DefaultConfigs, config)) +
      IssuesOf(KeyLengthEntry(DefaultConfigs, config)) +
      IssuesOf(ModeEntry(DefaultConfigs, config)) ==
        ["Broken algorithm", "Vulnerable to brute force", "Should never be used",
         "Does not provide semantic security", "Reveals patterns in data"]
  {
    var config := Config("DES", "56", "ECB", "None");
    assert MatchedRisks(DefaultConfigs, config) == ["critical", "critical"];
  }

  /** In the default table AES-256 matches an entry, but its risk "none"
      leaves the level at "low" and it adds no issue. */
  lemma Aes256IsLow()
    ensures var config := Config("AES", "256", "GCM", "None");
      MatchedRisks(DefaultConfigs, config) == ["none"] &&
      MergedLevel("low", MatchedRisks(DefaultConfigs, config)) &&
      IssuesOf(AlgorithmEntry(DefaultConfigs, config)) +
      IssuesOf(KeyLengthEntry(DefaultConfigs, config)) +
      IssuesOf(ModeEntry(DefaultConfigs, config)) == []
  {
  }

  // ---------------------------------------------------------------------
  // JSON Web Token format

  /** token.split(sep). */
  function Split(s: string, sep: char): (parts: seq<string>)
    ensures |parts| >= 1
    ensures forall i :: 0 <= i < |parts| ==> sep !in parts[i]
    decreases |s|
  {
    if s == [] then [[]]
    else
      var rest := Split(s[1..], sep);
      if s[0] == sep then [[]] + rest
      else [[s[0]] + rest[0]] + rest[1..]
  }

  /** parts.join(sep), the inverse of Split. */
  function Join(parts: seq<string>, sep: char): string
    requires |parts| >= 1
  {
    if |parts| == 1 then parts[0] else parts[0] + [sep] + Join(parts[1..], sep)
  }

  /** The number of occurrences of c in s. */
  function Occurrences(s: string, c: char): nat
  {
    if s == [] then 0 else (if s[0] == c then 1 else 0) + Occurrences(s[1..], c)
  }

  /** Split loses nothing: joining the parts gives back the text, and
      there is one more part than there are separators. */
  lemma {:induction false} SplitJoin(s: string, sep: char)
    ensures Join(Split(s, sep), sep) == s
    ensures |Split(s, sep)| == Occurrences(s, sep) + 1
    decreases |s|
  {
    if s != [] {
      SplitJoin(s[1..], sep);
      var rest := Split(s[1..], sep);
      if s[0] == sep {
        assert Split(s, sep)[1..] == rest;
      } else {
        var parts := Split(s, sep);
        assert parts[1..] == rest[1..];
        if |rest| > 1 {
          assert Join(rest, sep) == rest[0] + [sep] + Join(rest[1..], sep);
        }
      }
    }
  }

  const InvalidFormat := "Invalid JWT format"

  /** The part-count check at the top of analyzeJWT: a token that does not
      split into three dot-separated parts is invalid; otherwise the three
      parts go on to be decoded. */
  function CheckJwtParts(token: string): (r: Result<seq<string>, seq<string>>)
    ensures r.Success? ==> |r.value| == 3 && Join(r.value, '.') == token
  {
    var parts := Split(token, '.');
    if |parts| != 3 then Failure([InvalidFormat])
    else
      SplitJoin(token, '.');
      Success(parts)
  }

  /** A token is rejected for its format exactly when it does not hold
      two dots. */
  lemma CheckJwtPartsIff(token: string)
    ensures CheckJwtParts(token) == Failure([InvalidFormat]) <==> Occurrences(token, '.') != 2
  {
    SplitJoin(token, '.');
  }
}
