/** The name heuristics and stock texts that the script ships with. */
module SampleNames {
  import opened Options
  import opened Text
  import opened Schemas
  import opened Example
  import opened WellFormed

  const ROLE_ARN := "arn:aws:iam::123456789012:role/example-role"

  const OBJECT_POLICY := "{\"Version\": \"2012-10-17\", \"Statement\": [{\"Effect\": \"Allow\", \"Action\": [\"s3:GetObject\"], \"Resource\": \"*\"}]}"
  const TRUST_POLICY := "{\"Version\": \"2012-10-17\", \"Statement\": [{\"Effect\": \"Allow\", \"Principal\": {\"Service\": \"pods.eks.amazonaws.com\"}, \"Action\": [\"sts:AssumeRole\", \"sts:TagSession\"]}]}"

  const STOCK: seq<string> := [
    "example", "100", "alias/example", "10.0.0.0/16", "us-east-1", "1.0",
    "123456789012", ROLE_ARN, "ou-ab12-cdef3456", "example.com", "EXAMPLE", "t3.micro", "P7D"]

  /** The rules of `sample_string` before the id rule: networks and identities. */
  function FixedSample(low: string, kind: string): (r: Option<string>)
    ensures r != Some("")
  {
    if EndsWith(low, "arn") || Contains(low, "rolearn") then Some(ROLE_ARN)
    else if Contains(low, "cidrblockipv6") || EndsWith(low, "ipv6cidrblock") then Some("2001:db8::/56")
    else if Contains(low, "cidr") then Some("10.0.0.0/16")
    else if low == "region" then Some("us-east-1")
    else if Contains(low, "availabilityzone") then Some("us-east-1a")
    else if EndsWith(low, "accountid") then Some("123456789012")
    else if Contains(low, "email") then Some("ops@example.com")
    else if EndsWith(low, "kmskeyid") then
      Some("arn:aws:kms:us-east-1:123456789012:key/1234abcd-12ab-34cd-56ef-1234567890ab")
    else PolicySample(low, kind)
  }

  /** Policies, versions, descriptions and names. */
  function PolicySample(low: string, kind: string): (r: Option<string>)
    ensures r != Some("")
  {
    if Contains(low, "policydocument") || low == "policy" || EndsWith(low, "policyjson") then Some(OBJECT_POLICY)
    else if Contains(low, "assumerolepolicy") then Some(TRUST_POLICY)
    else if EndsWith(low, "version") && !Contains(low, "engine") then Some("1.0")
    else if Contains(low, "description") || low == "comment" then Some("Managed by konfig-konector")
    else if EndsWith(low, "name") then Some("example-" + kind)
    else None
  }

  // Sample ids by the end of the name, in the order in which the script tries them.
  const ID_SAMPLES: seq<(string, string)> := [
    ("imageid", "ami-0abc1234def567890"), ("amiid", "ami-0abc1234def567890"),
    ("vpcid", "vpc-0abc12def3456789"), ("subnetid", "subnet-0abc12def3456789"),
    ("securitygroupid", "sg-0abc12def3456789"), ("instanceid", "i-0abc1234def567890"),
    ("filesystemid", "fs-0abc1234def567890"), ("snapshotid", "snap-0abc1234def567890"),
    ("hostedzoneid", "Z0ABC123EXAMPLE"), ("certificateid", "12345678-1234-1234-1234-123456789012")]

  function FirstEnding(rules: seq<(string, string)>, low: string): (r: string)
    requires forall rule | rule in rules :: rule.1 != ""
    ensures r != ""
  {
    if rules == [] then "example-id"
    else if EndsWith(low, rules[0].0) then rules[0].1
    else FirstEnding(rules[1..], low)
  }

  function IdSample(low: string): (r: string)
    ensures r != ""
  {
    FirstEnding(ID_SAMPLES, low)
  }

  method SampleId(low: string) returns (v: string)
    ensures v == IdSample(low)
  {
    for i := 0 to |ID_SAMPLES|
      invariant IdSample(low) == FirstEnding(ID_SAMPLES[i..], low)
    {
      assert ID_SAMPLES[i..][0] == ID_SAMPLES[i] && ID_SAMPLES[i..][1..] == ID_SAMPLES[i + 1..];
      if EndsWith(low, ID_SAMPLES[i].0) {
        return ID_SAMPLES[i].1;
      }
    }
    v := "example-id";
  }

  /** The first listed ending of a name decides its sample id. */
  lemma {:induction false} FirstEndingExact(rules: seq<(string, string)>, low: string)
    requires forall rule | rule in rules :: rule.1 != ""
    ensures forall i | 0 <= i < |rules| && EndsWith(low, rules[i].0) && (forall j | 0 <= j < i :: !EndsWith(low, rules[j].0)) ::
              FirstEnding(rules, low) == rules[i].1
    ensures (forall rule | rule in rules :: !EndsWith(low, rule.0)) ==> FirstEnding(rules, low) == "example-id"
  {
    if rules == [] {
    } else {
      var rest := rules[1..];
      FirstEndingExact(rest, low);
      forall i | 0 <= i < |rules| && EndsWith(low, rules[i].0) && (forall j | 0 <= j < i :: !EndsWith(low, rules[j].0))
        ensures FirstEnding(rules, low) == rules[i].1
      {
        if i > 0 {
          assert rest[i - 1] == rules[i];
          assert forall j | 0 <= j < i - 1 :: rest[j] == rules[j + 1];
        }
      }
    }
  }

  function IntSample(low: string): (n: int)
    ensures 1 <= n <= MAX_DEFAULT
  {
    if Contains(low, "port") then 443
    else if Contains(low, "retention") || Contains(low, "days") then 7
    else if Contains(low, "timeout") || Contains(low, "seconds") then 300
    else if Contains(low, "capacity") || Contains(low, "count") || Contains(low, "size") then 2
    else 1
  }

  predicate Timed(low: string) {
    Contains(low, "time") && !Contains(low, "zone")
  }

  predicate Switched(low: string) {
    Contains(low, "enable") || Contains(low, "encrypt") || Contains(low, "versioning") || Contains(low, "protect")
  }

  /** The script's own environment, for any lower-casing and any regular-expression engine. */
  function Shipped(kind: string, lower: string -> string, regex: Regex): Env {
    Env(kind, MAX_DEPTH, regex, STOCK, Names(lower, FixedSample, IdSample, Timed, IntSample, Switched))
  }

  /** It meets what the theorems about examples ask of the heuristics. */
  lemma ShippedSensible(kind: string, lower: string -> string, regex: Regex)
    ensures Sensible(Shipped(kind, lower, regex).names) && Moderate(Shipped(kind, lower, regex).names)
    ensures Shipped(kind, lower, regex).cutoff == 5
  {
  }
}
