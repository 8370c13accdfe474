/**
 * display.go: the string helpers of the text listing (name tags, indents,
 * security-group rule labels, the instance health count) and the HideIP
 * redaction the print functions apply before printing.
 */
module Display {
  import opened Model

  /** A Name tag longer than this many runes is truncated when truncation is on. */
  const NameTruncate := 20

  const ExpungedIp := "xxx.xxx.xxx.xxx"
  const ExpungedDomain := "xxxx.xxxx.xxxx"
  const ExpungedMac := "xx:xx:xx:xx:xx:xx"
  const ExpungedCidr := "xxx.xxx.xxx.xxx/xx"
  const ExpungedV6Cidr := "xxxx::xxxx/xx"

  // ------------------------------------------------------------- indent

  /** indent: one more space than asked for; none when asked for a negative number. */
  method Indent(num: int) returns (s: string)
    ensures |s| == if num < 0 then 0 else num + 1
    ensures forall i :: 0 <= i < |s| ==> s[i] == ' '
  {
    s := "";
    var i := 0;
    while i <= num
      invariant 0 <= i <= if num < 0 then 0 else num + 1
      invariant |s| == i
      invariant forall k :: 0 <= k < |s| ==> s[k] == ' '
      decreases num - i + 1
    {
      s := s + " ";
      i := i + 1;
    }
  }

  // ------------------------------------------------------------- formatName

  /**
   * formatName, over the name's runes: "" for no name, otherwise the name in
   * brackets after a space; with truncation on, a name over NameTruncate
   * runes keeps its first 16 runes and gains "...".
   */
  function FormatName(name: string, truncate: bool): (r: string)
    ensures name == "" <==> r == ""
    ensures name != "" ==> |r| >= 3 && r[..2] == " [" && r[|r| - 1] == ']'
    ensures name != "" ==> var shown := r[2..|r| - 1];
      && (shown == name <==> !truncate || |name| <= NameTruncate)
      && (truncate && |name| > NameTruncate ==> shown == name[..16] + "...")
    ensures truncate && name != "" ==> |r| - 3 <= NameTruncate
  {
    if name == "" then ""
    else
      var runes := if truncate && |name| > NameTruncate then name[..NameTruncate - 1 - 3] + "..." else name;
      assert truncate && |name| > NameTruncate ==> runes != name by {
        if truncate && |name| > NameTruncate {
          assert |runes| == 19;
        }
      }
      " [" + runes + "]"
  }

  /** A truncated name is 19 runes long and starts like the name it shortens. */
  lemma TruncatedNameShape(name: string)
    requires |name| > NameTruncate
    ensures var shown := FormatName(name, true)[2..|FormatName(name, true)| - 1];
      |shown| == NameTruncate - 1 && shown[..16] == name[..16] && shown[16..] == "..."
  {
    var r := FormatName(name, true);
    assert r == " [" + (name[..16] + "...") + "]";
    assert r[2..|r| - 1] == name[..16] + "...";
  }

  // ------------------------------------------------------------- printRules

  function DigitChar(d: nat): char
    requires d < 10
  {
    ('0' as int + d) as char
  }

  /** The decimal digits of n, most significant first. */
  function Digits(n: nat): string
    decreases n
  {
    if n < 10 then [DigitChar(n)] else Digits(n / 10) + [DigitChar(n % 10)]
  }

  /** fmt's %v of an integer: a minus sign for negative values, then the decimal digits. */
  function Decimal(n: int): string
  {
    if n < 0 then "-" + Digits(-n) else Digits(n)
  }

  /** The value of a string of decimal digits. */
  function DigitsValue(s: string): int
  {
    if |s| == 0 then 0 else DigitsValue(s[..|s| - 1]) * 10 + (s[|s| - 1] as int - '0' as int)
  }

  /** Reading back a decimal rendering. */
  function ParseDecimal(s: string): int
  {
    if |s| > 0 && s[0] == '-' then -DigitsValue(s[1..]) else DigitsValue(s)
  }

  /** Digits are non-empty, all digit characters, without a leading zero, and read back as n. */
  lemma {:induction false} DigitsRoundTrip(n: nat)
    decreases n
    ensures |Digits(n)| >= 1
    ensures forall i :: 0 <= i < |Digits(n)| ==> '0' <= Digits(n)[i] <= '9'
    ensures Digits(n)[0] != '0' || n == 0
    ensures DigitsValue(Digits(n)) == n
  {
    if n >= 10 {
      DigitsRoundTrip(n / 10);
      var s := Digits(n);
      assert s[..|s| - 1] == Digits(n / 10);
    }
  }

  /** Decimal is read back exactly, so distinct ports never share a label. */
  lemma DecimalRoundTrip(n: int)
    ensures ParseDecimal(Decimal(n)) == n
  {
    if n < 0 {
      DigitsRoundTrip(-n);
      assert Decimal(n)[1..] == Digits(-n);
    } else {
      DigitsRoundTrip(n);
    }
  }

  lemma DecimalInjective(a: int, b: int)
    requires Decimal(a) == Decimal(b)
    ensures a == b
  {
    DecimalRoundTrip(a);
    DecimalRoundTrip(b);
  }

  /** The labels printRules prints for one rule. */
  datatype RuleLabel = RuleLabel(direction: string, protocol: string, portRange: string)

  predicate IsIcmp(protocol: string)
  {
    protocol == "icmp" || protocol == "icmpv6"
  }

  /**
   * The label computation inside printRules' loop: "from-to", or one
   * number when both ends agree; protocol "-1" is "all" with no range; an
   * ICMP rule with a -1 end covers "all"; the direction follows `ingress`.
   */
  method RuleLabelOf(rule: SecurityGroupRule, ingress: bool) returns (labels: RuleLabel)
    ensures labels.direction == if ingress then "inbound" else "outbound"
    ensures labels.protocol == if rule.ipProtocol == "-1" then "all" else rule.ipProtocol
    ensures rule.ipProtocol == "-1" ==> labels.portRange == ""
    ensures IsIcmp(rule.ipProtocol) && (rule.fromPort == -1 || rule.toPort == -1) ==> labels.portRange == "all"
    ensures rule.ipProtocol != "-1" && !(IsIcmp(rule.ipProtocol) && (rule.fromPort == -1 || rule.toPort == -1)) ==>
      if rule.fromPort == rule.toPort then labels.portRange == Decimal(rule.fromPort)
      else labels.portRange == Decimal(rule.fromPort) + "-" + Decimal(rule.toPort)
  {
    var portRange := Decimal(rule.fromPort) + "-" + Decimal(rule.toPort);
    var direction := "inbound";
    var proto := rule.ipProtocol;
    if !ingress {
      direction := "outbound";
    }
    if rule.fromPort == rule.toPort {
      portRange := Decimal(rule.fromPort);
    }
    if rule.ipProtocol == "-1" {
      proto := "all";
      portRange := "";
    }
    if rule.ipProtocol == "icmp" || rule.ipProtocol == "icmpv6" {
      if rule.fromPort == -1 || rule.toPort == -1 {
        portRange := "all";
      }
    }
    labels := RuleLabel(direction, proto, portRange);
  }

  // ------------------------------------------------------------- printInstance

  /** The health figure printInstance shows out of 2: how many of the two status checks report "ok". */
  function HealthCount(instance: InstanceData): (n: nat)
    ensures n <= 2
    ensures n == 2 <==> instance.systemStatus == "ok" && instance.instanceStatus == "ok"
    ensures n == 0 <==> instance.systemStatus != "ok" && instance.instanceStatus != "ok"
  {
    (if instance.systemStatus == "ok" then 1 else 0) + (if instance.instanceStatus == "ok" then 1 else 0)
  }

  // ------------------------------------------------------------- HideIP

  /** What printVPC shows under HideIP: the IPv4 CIDR always hidden, the IPv6 CIDR only when there is one. */
  function HiddenVpc(v: VpcData): (r: VpcData)
    ensures r.cidrBlock == ExpungedCidr
    ensures r.ipv6CidrBlock == "" <==> v.ipv6CidrBlock == ""
    ensures v.ipv6CidrBlock != "" ==> r.ipv6CidrBlock == ExpungedV6Cidr
    ensures r.(cidrBlock := v.cidrBlock, ipv6CidrBlock := v.ipv6CidrBlock) == v
  {
    v.(cidrBlock := ExpungedCidr, ipv6CidrBlock := if v.ipv6CidrBlock != "" then ExpungedV6Cidr else "")
  }

  /** What printSubnet shows under HideIP: the CIDR hidden. */
  function HiddenSubnet(s: SubnetData): (r: SubnetData)
    ensures r.cidrBlock == ExpungedCidr
    ensures r.(cidrBlock := s.cidrBlock) == s
  {
    s.(cidrBlock := ExpungedCidr)
  }

  /**
   * What the interface printers show under HideIP: MAC and both addresses
   * always hidden, the DNS name only when there is one.
   */
  function HiddenInterface(iface: NetworkInterfaceData): (r: NetworkInterfaceData)
    ensures r.mac == ExpungedMac && r.privateIp == ExpungedIp && r.publicIp == ExpungedIp
    ensures r.dns == "" <==> iface.dns == ""
    ensures iface.dns != "" ==> r.dns == ExpungedDomain
    ensures r.(mac := iface.mac, privateIp := iface.privateIp, publicIp := iface.publicIp, dns := iface.dns) == iface
  {
    iface.(mac := ExpungedMac, privateIp := ExpungedIp, publicIp := ExpungedIp,
           dns := if iface.dns != "" then ExpungedDomain else "")
  }

  /** What printInstance shows under HideIP: both addresses hidden. */
  function HiddenInstance(instance: InstanceData): (r: InstanceData)
    ensures r.publicIp == ExpungedIp && r.privateIp == ExpungedIp
    ensures r.(publicIp := instance.publicIp, privateIp := instance.privateIp) == instance
  {
    instance.(publicIp := ExpungedIp, privateIp := ExpungedIp)
  }

  /** What printNatGateway shows under HideIP: both addresses hidden. */
  function HiddenNatGateway(g: NatGatewayData): (r: NatGatewayData)
    ensures r.publicIp == ExpungedIp && r.privateIp == ExpungedIp
    ensures r.(publicIp := g.publicIp, privateIp := g.privateIp) == g
  {
    g.(publicIp := ExpungedIp, privateIp := ExpungedIp)
  }

  /**
   * Redaction is idempotent, and what it shows depends only on whether the
   * optional fields are present: two records differing only in their
   * addresses print alike.
   */
  lemma HidingForgetsAddresses(a: NetworkInterfaceData, b: NetworkInterfaceData)
    requires a.(mac := b.mac, privateIp := b.privateIp, publicIp := b.publicIp, dns := b.dns) == b
    requires a.dns == "" <==> b.dns == ""
    ensures HiddenInterface(a) == HiddenInterface(b)
    ensures HiddenInterface(HiddenInterface(a)) == HiddenInterface(a)
  {
  }

  lemma HidingVpcForgetsAddresses(a: VpcData, b: VpcData)
    requires a.(cidrBlock := b.cidrBlock, ipv6CidrBlock := b.ipv6CidrBlock) == b
    requires a.ipv6CidrBlock == "" <==> b.ipv6CidrBlock == ""
    ensures HiddenVpc(a) == HiddenVpc(b)
    ensures HiddenVpc(HiddenVpc(a)) == HiddenVpc(a)
  {
  }
}
