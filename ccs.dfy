/** The rule tables of the cryptographic configuration simulator
    (src/components/CCS.jsx): the risk label of one configuration value and
    the lists of weaknesses and mitigations for an algorithm, key length,
    mode and padding. */
module Ccs {
  import opened Wrappers

  // ---------------------------------------------------------------------
  // getRiskLevel

  /** A configuration value as the page passes it: the text of a select,
      or a key length held as a number. */
  datatype Component = Text(s: string) | Number(n: int)

  /** Object.values(component): the single-character strings of a text,
      and nothing for a number (a primitive number has no own properties). */
  function ObjectValues(c: Component): (values: seq<string>)
    ensures forall v <- values :: |v| == 1
  {
    match c
    case Text(s) => seq(|s|, i requires 0 <= i < |s| => [s[i]])
    case Number(_) => []
  }

  const HighRisk := "HIGH RISK"
  const MediumRisk := "MEDIUM RISK"
  const LowRisk := "LOW RISK"

  /** getRiskLevel as written: the Object.values tests for "1024" and
      "2048" sit before the comparisons with "ECB", "3DES" and "CBC". */
  function GetRiskLevel(c: Component): (risk: string)
    ensures risk == HighRisk || risk == MediumRisk || risk == LowRisk
  {
    if "1024" in ObjectValues(c) || c == Text("ECB") || c == Text("3DES") then HighRisk
    else if "2048" in ObjectValues(c) || c == Text("CBC") then MediumRisk
    else LowRisk
  }

  /** No value of Object.values has four characters, so the key-length
      tests never hold. */
  lemma KeyLengthTestsNeverHold(c: Component)
    ensures "1024" !in ObjectValues(c) && "2048" !in ObjectValues(c)
  {
    assert |"1024"| == 4 && |"2048"| == 4;
  }

  /** The labels getRiskLevel actually gives: "HIGH RISK" exactly for ECB
      and 3DES, "MEDIUM RISK" exactly for CBC, "LOW RISK" for every other
      value. */
  lemma GetRiskLevelCases(c: Component)
    ensures GetRiskLevel(c) == HighRisk <==> c == Text("ECB") || c == Text("3DES")
    ensures GetRiskLevel(c) == MediumRisk <==> c == Text("CBC")
    ensures GetRiskLevel(c) == LowRisk <==> c != Text("ECB") && c != Text("3DES") && c != Text("CBC")
  {
    KeyLengthTestsNeverHold(c);
  }

  /** A 1024-bit key, whether the select's text or the initial number, is
      labelled low risk. */
  lemma KeyLength1024IsLowRisk()
    ensures GetRiskLevel(Text("1024")) == LowRisk
    ensures GetRiskLevel(Number(1024)) == LowRisk
  {
    KeyLengthTestsNeverHold(Text("1024"));
    KeyLengthTestsNeverHold(Number(1024));
  }

  /** The risk the key-length tests evidently aim at: the value itself
      compared with 1024 and 2048, as text or as a number. */
  function IntendedRiskLevel(c: Component): (risk: string)
    ensures risk == HighRisk <==> c in {Text("1024"), Number(1024), Text("ECB"), Text("3DES")}
    ensures risk == MediumRisk <==> c in {Text("2048"), Number(2048), Text("CBC")}
    ensures risk == LowRisk <==>
      c !in {Text("1024"), Number(1024), Text("ECB"), Text("3DES"), Text("2048"), Number(2048), Text("CBC")}
  {
    if c == Text("1024") || c == Number(1024) || c == Text("ECB") || c == Text("3DES") then HighRisk
    else if c == Text("2048") || c == Number(2048) || c == Text("CBC") then MediumRisk
    else LowRisk
  }

  /** The intended labels agree with getRiskLevel except on the key
      lengths 1024 and 2048. */
  lemma IntendedAgreesElsewhere(c: Component)
    requires c !in {Text("1024"), Number(1024), Text("2048"), Number(2048)}
    ensures IntendedRiskLevel(c) == GetRiskLevel(c)
  {
    GetRiskLevelCases(c);
  }

  // ---------------------------------------------------------------------
  // getVulnerabilityList and getMitigationStrategies

  /** The key length as the `<` comparisons see it: its numeric value, or
      None for NaN, which no comparison accepts. */
  type KeyLength = Option<int>

  predicate Below(keyLength: KeyLength, bound: int)
  {
    keyLength.Some? && keyLength.value < bound
  }

  /** The entries whose condition holds, in table order. */
  function Selected(entries: seq<string>, conditions: seq<bool>): (r: seq<string>)
    requires |entries| == |conditions|
    ensures |r| <= |entries|
    ensures forall x <- r :: x in entries
  {
    if entries == [] then []
    else (if conditions[0] then [entries[0]] else []) + Selected(entries[1..], conditions[1..])
  }

  /** An entry is selected exactly when some position holding it has its
      condition set. */
  lemma {:induction false} SelectedMembership(entries: seq<string>, conditions: seq<bool>, x: string)
    requires |entries| == |conditions|
    ensures x in Selected(entries, conditions) <==>
            exists i :: 0 <= i < |entries| && conditions[i] && entries[i] == x
  {
    if entries != [] {
      SelectedMembership(entries[1..], conditions[1..], x);
      if exists i :: 0 <= i < |entries| && conditions[i] && entries[i] == x {
        var i :| 0 <= i < |entries| && conditions[i] && entries[i] == x;
        if i > 0 {
          assert conditions[1..][i - 1] && entries[1..][i - 1] == x;
        }
      }
      if x in Selected(entries[1..], conditions[1..]) {
        var j :| 0 <= j < |entries| - 1 && conditions[1..][j] && entries[1..][j] == x;
        assert conditions[j + 1] && entries[j + 1] == x;
      }
    }
  }

  /** Selected over a table of three entries, spelt out. */
  lemma SelectedOfThree(a: string, b: string, c: string, ca: bool, cb: bool, cc: bool)
    ensures Selected([a, b, c], [ca, cb, cc]) ==
            (if ca then [a] else []) + (if cb then [b] else []) + (if cc then [c] else [])
  {
    assert [a, b, c][1..] == [b, c] && [ca, cb, cc][1..] == [cb, cc];
    assert [b, c][1..] == [c] && [cb, cc][1..] == [cc];
    assert Selected([c], [cc]) == (if cc then [c] else []) + Selected([], []);
  }

  const Quantum := "Potential future vulnerability to quantum computing attacks"
  const PatternAnalysis := "Vulnerable to pattern analysis and replay attacks"
  const PaddingOracle := "Potential padding oracle attacks if improperly implemented"
  const Factorization := "Vulnerable to factorization attacks"
  const Bleichenbacher := "Vulnerable to Bleichenbacher's attack"
  const Sweet32 := "Vulnerable to Sweet32 birthday attacks"
  const MeetInTheMiddle := "Vulnerable to meet-in-the-middle attacks"

  const UpgradeAes := "Upgrade to AES-256 for future-proof security"
  const SwitchToGcm := "Switch to GCM mode for authenticated encryption"
  const LongerRsaKey := "Increase key length to minimum 2048 bits"
  const OaepPadding := "Migrate to OAEP-SHA256 padding"
  const MigrateToAes := "Migrate to AES-256-GCM"

  const Pkcs := "PKCS1v1.5"

  predicate Handled(algorithm: string)
  {
    algorithm == "AES" || algorithm == "RSA" || algorithm == "3DES"
  }

  /** getVulnerabilityList: for AES the quantum entry below 256 bits and
      the ECB or CBC entry; for RSA the factorization entry below 2048 bits
      and the Bleichenbacher entry for PKCS1v1.5; for 3DES its two entries
      whatever the other settings; nothing for any other algorithm. */
  method GetVulnerabilityList(algorithm: string, keyLength: KeyLength, mode: string, padding: string)
    returns (vulns: seq<string>)
    ensures algorithm == "AES" ==>
      vulns == Selected([Quantum, PatternAnalysis, PaddingOracle],
                        [Below(keyLength, 256), mode == "ECB", mode == "CBC"])
    ensures algorithm == "RSA" ==>
      vulns == Selected([Factorization, Bleichenbacher], [Below(keyLength, 2048), padding == Pkcs])
    ensures algorithm == "3DES" ==> vulns == [Sweet32, MeetInTheMiddle]
    ensures !Handled(algorithm) ==> vulns == []
  {
    vulns := [];
    if algorithm == "AES" {
      SelectedOfThree(Quantum, PatternAnalysis, PaddingOracle, Below(keyLength, 256), mode == "ECB", mode == "CBC");
      if Below(keyLength, 256) {
        vulns := vulns + [Quantum];
      }
      if mode == "ECB" {
        vulns := vulns + [PatternAnalysis];
      }
      if mode == "CBC" {
        vulns := vulns + [PaddingOracle];
      }
    } else if algorithm == "RSA" {
      if Below(keyLength, 2048) {
        vulns := vulns + [Factorization];
      }
      if padding == Pkcs {
        vulns := vulns + [Bleichenbacher];
      }
    } else if algorithm == "3DES" {
      vulns := vulns + [Sweet32];
      vulns := vulns + [MeetInTheMiddle];
    }
  }

  /** getMitigationStrategies: for AES an upgrade below 256 bits and GCM
      instead of ECB (CBC gets no mode advice); for RSA a longer key below
      2048 bits and OAEP instead of PKCS1v1.5; for 3DES only the migration
      to AES-256-GCM; nothing for any other algorithm. */
  method GetMitigationStrategies(algorithm: string, keyLength: KeyLength, mode: string, padding: string)
    returns (strategies: seq<string>)
    ensures algorithm == "AES" ==>
      strategies == Selected([UpgradeAes, SwitchToGcm], [Below(keyLength, 256), mode == "ECB"])
    ensures algorithm == "RSA" ==>
      strategies == Selected([LongerRsaKey, OaepPadding], [Below(keyLength, 2048), padding == Pkcs])
    ensures algorithm == "3DES" ==> strategies == [MigrateToAes]
    ensures !Handled(algorithm) ==> strategies == []
  {
    strategies := [];
    if algorithm == "AES" {
      if Below(keyLength, 256) {
        strategies := strategies + [UpgradeAes];
      }
      if mode == "ECB" {
        strategies := strategies + [SwitchToGcm];
      }
    } else if algorithm == "RSA" {
      if Below(keyLength, 2048) {
        strategies := strategies + [LongerRsaKey];
      }
      if padding == Pkcs {
        strategies := strategies + [OaepPadding];
      }
    } else if algorithm == "3DES" {
      strategies := strategies + [MigrateToAes];
    }
  }

  /** For AES the list holds the quantum entry exactly below 256 bits, and
      at most one of the ECB and CBC entries. */
  lemma AesVulnerabilities(keyLength: KeyLength, mode: string)
    ensures var vulns := Selected([Quantum, PatternAnalysis, PaddingOracle],
                                  [Below(keyLength, 256), mode == "ECB", mode == "CBC"]);
      (Quantum in vulns <==> Below(keyLength, 256)) &&
      (PatternAnalysis in vulns <==> mode == "ECB") &&
      (PaddingOracle in vulns <==> mode == "CBC") &&
      !(PatternAnalysis in vulns && PaddingOracle in vulns)
  {
    var entries := [Quantum, PatternAnalysis, PaddingOracle];
    var conditions := [Below(keyLength, 256), mode == "ECB", mode == "CBC"];
    SelectedMembership(entries, conditions, Quantum);
    SelectedMembership(entries, conditions, PatternAnalysis);
    SelectedMembership(entries, conditions, PaddingOracle);
    SelectedOfThree(Quantum, PatternAnalysis, PaddingOracle, Below(keyLength, 256), mode == "ECB", mode == "CBC");
  }

  /** For RSA the factorization entry comes first, exactly below 2048
      bits, and the Bleichenbacher entry last, exactly for PKCS1v1.5. */
  lemma RsaVulnerabilities(keyLength: KeyLength, padding: string)
    ensures var vulns := Selected([Factorization, Bleichenbacher], [Below(keyLength, 2048), padding == Pkcs]);
      (Factorization in vulns <==> Below(keyLength, 2048)) &&
      (Bleichenbacher in vulns <==> padding == Pkcs) &&
      (Below(keyLength, 2048) ==> vulns[0] == Factorization) &&
      (padding == Pkcs ==> vulns[|vulns| - 1] == Bleichenbacher)
  {
    var entries := [Factorization, Bleichenbacher];
    var conditions := [Below(keyLength, 2048), padding == Pkcs];
    SelectedMembership(entries, conditions, Factorization);
    SelectedMembership(entries, conditions, Bleichenbacher);
  }
}
