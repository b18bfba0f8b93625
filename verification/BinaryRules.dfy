/** The targets, names, paths and limits of published binaries as they read. */
module BinaryRules {
  import opened Text
  import opened Numerals
  import opened BinaryMetadata
  import opened BinaryParts

  predicate IsTarget(target: string) {
    target in ["x86_64-unknown-linux-gnu", "aarch64-unknown-linux-gnu", "x86_64-pc-windows-msvc",
               "x86_64-apple-darwin", "aarch64-apple-darwin"]
  }

  lemma TargetIff(target: string)
    ensures target in TARGETS <==> IsTarget(target)
  {}

  /** Four binaries for every target, with an extension on Windows only. */
  lemma NamesOfTarget(target: string)
    requires IsTarget(target)
    ensures RuntimeNames(target) ==
            if target == "x86_64-pc-windows-msvc"
            then ["backend.exe", "cloud_node.exe", "dep/container.exe", "dep/service.exe"]
            else ["backend", "cloud_node", "dep/container", "dep/service"]
  {
    ExtensionIs(target);
    if target == "x86_64-pc-windows-msvc" {
      WithExtension();
    } else {
      forall i | 0 <= i < |RUNTIME|
        ensures RuntimeNames(target)[i] == RUNTIME[i]
      {
        assert RUNTIME[i] + "" == RUNTIME[i];
      }
      assert RuntimeNames(target) == RUNTIME;
    }
  }

  lemma WithExtension()
    ensures seq(|RUNTIME|, i requires 0 <= i < |RUNTIME| => RUNTIME[i] + ".exe")
         == ["backend.exe", "cloud_node.exe", "dep/container.exe", "dep/service.exe"]
  {
    assert "backend" + ".exe" == "backend.exe" && "cloud_node" + ".exe" == "cloud_node.exe";
    assert "dep/container" + ".exe" == "dep/container.exe" && "dep/service" + ".exe" == "dep/service.exe";
  }

  lemma ExtensionIs(target: string)
    requires IsTarget(target)
    ensures Extension(target) == if target == "x86_64-pc-windows-msvc" then ".exe" else ""
  {
    hide FindFrom;
    if target == "x86_64-pc-windows-msvc" {
      assert target[10..17] == "windows";
      assert OccursAt(target, "windows", 10);
    } else {
      var found := FindFrom(target, "windows", 0);
      if found.Some? {
        WindowsHasTwo(target, found.value);
        NoTwo(target, found.value);
      }
    }
  }

  lemma WindowsHasTwo(target: string, i: nat)
    requires OccursAt(target, "windows", i)
    ensures i + 7 <= |target| && target[i] == 'w' && target[i + 1] == 'i' && target[i + 2] == 'n' && target[i + 3] == 'd'
  {
    var cut := target[i..i + 7];
    assert cut[0] == target[i] && cut[1] == target[i + 1] && cut[2] == target[i + 2] && cut[3] == target[i + 3];
  }

  lemma NoTwo(target: string, i: nat)
    requires IsTarget(target) && target != "x86_64-pc-windows-msvc" && i + 7 <= |target|
    ensures !(target[i] == 'w' && target[i + 1] == 'i')
  {}

  /** At least four digits, more only when the number needs them. */
  lemma FourDigitsRead(n: nat)
    ensures var digits := FourDigits(n);
            && |digits| >= 4 && (|digits| > 4 ==> digits[0] != '0') && (forall i :: 0 <= i < |digits| ==> IsDigit(digits[i]))
            && DecimalValue(digits) == n
  {
    var fill := if |Decimal(n)| < 4 then 4 - |Decimal(n)| else 0;
    ZeroesAddNothing(fill, Decimal(n));
    DecimalHasValue(n);
    if fill == 0 {
      assert Zeroes(0) + Decimal(n) == Decimal(n);
    }
  }

  predicate LowerHex(s: string) { |s| == 64 && forall i :: 0 <= i < 64 ==> '0' <= s[i] <= '9' || 'a' <= s[i] <= 'f' }

  /** A part of at most 80 MiB, stored under its number unless it is the only one. */
  predicate DescribesPart(target: string, name: string, parts: seq<Part>, i: nat)
    requires i < |parts|
  {
    && 0 < parts[i].size <= 83886080 && LowerHex(parts[i].sha256)
    && parts[i].path == "binaries/" + target + "/" + name + if |parts| == 1 then "" else ".part" + FourDigits(i)
  }

  /** One to 128 parts, together the binary of at most 1 GiB. */
  predicate DescribesBinary(target: string, name: string, b: Binary) {
    && 0 < b.size <= 1073741824 && LowerHex(b.sha256) && 1 <= |b.parts| <= 128 && TotalSize(b.parts) == b.size
    && forall i :: 0 <= i < |b.parts| ==> DescribesPart(target, name, b.parts, i)
  }

  lemma PartIff(target: string, name: string, parts: seq<Part>, i: nat)
    requires i < |parts|
    ensures ValidPart(target, name, parts, i) <==> DescribesPart(target, name, parts, i)
  {
    hide PartPath, IsDigest, LowerHex, FourDigits;
    PathIs(target, name, i, |parts|);
    HexIff(parts[i].sha256);
  }

  lemma BinaryIff(target: string, name: string, b: Binary)
    ensures ValidBinary(target, name, b) <==> DescribesBinary(target, name, b)
  {
    hide ValidPart, DescribesPart, IsDigest, LowerHex;
    HexIff(b.sha256);
    forall i | 0 <= i < |b.parts|
      ensures ValidPart(target, name, b.parts, i) <==> DescribesPart(target, name, b.parts, i)
    {
      PartIff(target, name, b.parts, i);
    }
  }

  lemma HexIff(s: string)
    ensures IsDigest(s) <==> LowerHex(s)
  {}

  lemma PathIs(target: string, name: string, i: nat, n: nat)
    requires i < n
    ensures PartPath(target, name, i, n > 1)
         == "binaries/" + target + "/" + name + if n == 1 then "" else ".part" + FourDigits(i)
  {
    hide FourDigits;
  }

  /** Which manifests are accepted for a target. */
  lemma ManifestIff(m: Manifest, target: string)
    ensures ValidManifest(m, target) <==>
              && ValidMetadata(m.meta) && IsTarget(target) && target in m.targets
              && (forall name :: name in m.targets[target] <==> name in RuntimeNames(target))
              && forall name :: name in m.targets[target] ==> DescribesBinary(target, name, m.targets[target][name])
  {
    hide ValidMetadata, ValidBinary, DescribesBinary, RuntimeNames;
    TargetIff(target);
    if target in m.targets {
      forall name | name in m.targets[target]
        ensures ValidBinary(target, name, m.targets[target][name]) <==> DescribesBinary(target, name, m.targets[target][name])
      {
        BinaryIff(target, name, m.targets[target][name]);
      }
    }
  }
}
