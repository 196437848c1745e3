/** What the mock daemon reports (internal/mockqnx/server.go, shell.go), and sessions with it. */
module QconnMock {
  import DecimalText
  import opened QconnHex
  import opened QconnLines
  import opened QconnDaemon
  import opened QconnFields
  import opened QconnStore
  import opened QconnClient

  const MOCK_TABLES: Tables := Tables(MOCK_VERSIONS, MOCK_ATTRIBUTES)

  const MOCK_VERSIONS: seq<Version> := [
    Version("broker", '/', 256), Version("launcher", '/', 256), Version("file", '/', 256),
    Version("cntl", '/', 256), Version("sinfo", '/', 256)]

  const MOCK_ATTRIBUTES: seq<Attribute> := MOCK_CPU + MOCK_HOST + MOCK_SYSTEM + [MOCK_BUILD]
  const MOCK_CPU: seq<Attribute> := [
    Attribute("ARCHITECTURE", "x86_64"), Attribute("CPU", "x86_64"), Attribute("ENDIAN", "le"),
    Attribute("HASVERSION", "1")]
  const MOCK_HOST: seq<Attribute> := [
    Attribute("HOSTNAME", "qnxmock"), Attribute("MACHINE", "x86pc"), Attribute("NUM_SRVCS", "1"),
    Attribute("OS", "nto")]
  const MOCK_SYSTEM: seq<Attribute> := [
    Attribute("RELEASE", "8.0"), Attribute("SYSNAME", "QNX"), Attribute("TIMEZONE", "UTC0")]
  const MOCK_BUILD: Attribute := Attribute("VERSION", "2024/01/01-00:00:00UTC")

  lemma MockVersionsAreReportable()
    ensures forall i | 0 <= i < |MOCK_VERSIONS| :: IsVersion(MOCK_VERSIONS[i]) && IsPlain(MOCK_VERSIONS[i].name)
  {
    assert IsLower("broker") && IsLower("launcher") && IsLower("file") && IsLower("cntl") && IsLower("sinfo");
    forall i | 0 <= i < |MOCK_VERSIONS|
      ensures IsVersion(MOCK_VERSIONS[i]) && IsPlain(MOCK_VERSIONS[i].name)
    {
      LowerIsVersion(MOCK_VERSIONS[i]);
    }
  }

  lemma MockCpuIsReportable()
    ensures AreReportable(MOCK_CPU)
  {
    assert IsTidy("ARCHITECTURE") && IsTidy("x86_64");
    assert IsTidy("CPU") && IsTidy("x86_64");
    assert IsTidy("ENDIAN") && IsTidy("le");
    assert IsTidy("HASVERSION") && IsTidy("1");
    forall i | 0 <= i < |MOCK_CPU|
      ensures AreReportable([MOCK_CPU[i]])
    {
      TidyIsReportable(MOCK_CPU[i]);
    }
    assert forall i | 0 <= i < |MOCK_CPU| :: [MOCK_CPU[i]][0] == MOCK_CPU[i];
  }

  lemma MockHostIsReportable()
    ensures AreReportable(MOCK_HOST)
  {
    assert IsTidy("HOSTNAME") && IsTidy("qnxmock");
    assert IsTidy("MACHINE") && IsTidy("x86pc");
    assert IsTidy("NUM_SRVCS") && IsTidy("1");
    assert IsTidy("OS") && IsTidy("nto");
    forall i | 0 <= i < |MOCK_HOST|
      ensures AreReportable([MOCK_HOST[i]])
    {
      TidyIsReportable(MOCK_HOST[i]);
    }
    assert forall i | 0 <= i < |MOCK_HOST| :: [MOCK_HOST[i]][0] == MOCK_HOST[i];
  }

  lemma MockSystemIsReportable()
    ensures AreReportable(MOCK_SYSTEM)
  {
    assert IsTidy("RELEASE") && IsTidy("8.0");
    assert IsTidy("SYSNAME") && IsTidy("QNX");
    assert IsTidy("TIMEZONE") && IsTidy("UTC0");
    forall i | 0 <= i < |MOCK_SYSTEM|
      ensures AreReportable([MOCK_SYSTEM[i]])
    {
      TidyIsReportable(MOCK_SYSTEM[i]);
    }
    assert forall i | 0 <= i < |MOCK_SYSTEM| :: [MOCK_SYSTEM[i]][0] == MOCK_SYSTEM[i];
  }

  lemma MockIsReportable()
    ensures Reportable(MOCK_TABLES)
  {
    MockVersionsAreReportable();
    MockCpuIsReportable();
    MockHostIsReportable();
    MockSystemIsReportable();
    TidyIsReportable(MOCK_BUILD);
    AreReportableConcat(MOCK_CPU, MOCK_HOST);
    AreReportableConcat(MOCK_CPU + MOCK_HOST, MOCK_SYSTEM);
    AreReportableConcat(MOCK_CPU + MOCK_HOST + MOCK_SYSTEM, [MOCK_BUILD]);
  }

  // ----- the lines it writes -----

  lemma {:induction false} SpacedConcat(a: seq<string>, b: seq<string>)
    ensures Spaced(a + b) == Spaced(a) + Spaced(b)
  {
    if a == [] {
      assert a + b == b;
    } else {
      assert (a + b)[1..] == a[1..] + b;
      SpacedConcat(a[1..], b);
    }
  }

  lemma SpacedNext(words: seq<string>, w: string)
    ensures Spaced(words + [w]) == Spaced(words) + " " + w
  {
    SpacedConcat(words, [w]);
    assert Spaced([w]) == " " + w;
  }

  lemma VersionNext(versions: seq<Version>, v: Version, text: string)
    requires VersionText(v) == text
    ensures VersionLine(versions + [v]) == VersionLine(versions) + " " + text
  {
    assert VersionTexts(versions + [v]) == VersionTexts(versions) + [text];
    SpacedNext(VersionTexts(versions), text);
  }

  lemma MockVersionTexts()
    ensures VersionText(Version("broker", '/', 256)) == "broker/256"
    ensures VersionText(Version("launcher", '/', 256)) == "launcher/256"
    ensures VersionText(Version("file", '/', 256)) == "file/256"
    ensures VersionText(Version("cntl", '/', 256)) == "cntl/256"
    ensures VersionText(Version("sinfo", '/', 256)) == "sinfo/256"
  {
  }

  lemma FiveVersions(a: Version, b: Version, c: Version, d: Version, e: Version)
    ensures VersionLine([a, b, c, d, e]) ==
      "versions:" + " " + VersionText(a) + " " + VersionText(b) + " " + VersionText(c)
                  + " " + VersionText(d) + " " + VersionText(e)
  {
    assert VersionLine([]) == "versions:";
    assert [a] == [] + [a] && [a, b] == [a] + [b] && [a, b, c] == [a, b] + [c];
    assert [a, b, c, d] == [a, b, c] + [d] && [a, b, c, d, e] == [a, b, c, d] + [e];
    VersionNext([], a, VersionText(a));
    VersionNext([a], b, VersionText(b));
    VersionNext([a, b], c, VersionText(c));
    VersionNext([a, b, c], d, VersionText(d));
    VersionNext([a, b, c, d], e, VersionText(e));
  }

  /** The line of internal/mockqnx/server.go:102. */
  lemma MockVersionLine()
    ensures VersionLine(MOCK_VERSIONS) ==
      "versions:" + " " + "broker/256" + " " + "launcher/256" + " " + "file/256" + " " + "cntl/256" + " " + "sinfo/256"
  {
    MockVersionTexts();
    FiveVersions(MOCK_VERSIONS[0], MOCK_VERSIONS[1], MOCK_VERSIONS[2], MOCK_VERSIONS[3], MOCK_VERSIONS[4]);
  }

  lemma AttributeNext(attributes: seq<Attribute>, a: Attribute)
    requires attributes != []
    ensures AttributeLine(attributes + [a]) == AttributeLine(attributes) + " " + AttributeText(a)
  {
    var texts, t := AttributeTexts(attributes), AttributeText(a);
    assert AttributeTexts(attributes + [a]) == texts + [t];
    assert (texts + [t])[1..] == texts[1..] + [t];
    SpacedNext(texts[1..], t);
  }

  lemma AttributesNext(attributes: seq<Attribute>, more: seq<Attribute>)
    requires attributes != []
    ensures AttributeLine(attributes + more) == AttributeLine(attributes) + Spaced(AttributeTexts(more))
  {
    var a, b := AttributeTexts(attributes), AttributeTexts(more);
    assert AttributeTexts(attributes + more) == a + b && (a + b)[1..] == a[1..] + b;
    SpacedConcat(a[1..], b);
  }

  lemma SpacedThree(a: string, b: string, c: string)
    ensures Spaced([a, b, c]) == " " + a + " " + b + " " + c
  {
    assert Spaced([a]) == " " + a;
    assert [a, b] == [a] + [b] && [a, b, c] == [a, b] + [c];
    SpacedNext([a], b);
    SpacedNext([a, b], c);
  }

  lemma SpacedFour(a: string, b: string, c: string, d: string)
    ensures Spaced([a, b, c, d]) == " " + a + " " + b + " " + c + " " + d
  {
    SpacedThree(a, b, c);
    assert [a, b, c, d] == [a, b, c] + [d];
    SpacedNext([a, b, c], d);
  }

  lemma MockCpuTexts()
    ensures AttributeTexts(MOCK_CPU) == ["ARCHITECTURE=x86_64", "CPU=x86_64", "ENDIAN=le", "HASVERSION=1"]
  {
    assert "ARCHITECTURE" + ['='] + "x86_64" == "ARCHITECTURE=x86_64";
    assert "CPU" + ['='] + "x86_64" == "CPU=x86_64";
    assert "ENDIAN" + ['='] + "le" == "ENDIAN=le";
    assert "HASVERSION" + ['='] + "1" == "HASVERSION=1";
  }

  lemma MockHostTexts()
    ensures AttributeTexts(MOCK_HOST) == ["HOSTNAME=qnxmock", "MACHINE=x86pc", "NUM_SRVCS=1", "OS=nto"]
  {
    assert "HOSTNAME" + ['='] + "qnxmock" == "HOSTNAME=qnxmock";
    assert "MACHINE" + ['='] + "x86pc" == "MACHINE=x86pc";
    assert "NUM_SRVCS" + ['='] + "1" == "NUM_SRVCS=1";
    assert "OS" + ['='] + "nto" == "OS=nto";
  }

  lemma MockSystemTexts()
    ensures AttributeTexts(MOCK_SYSTEM) == ["RELEASE=8.0", "SYSNAME=QNX", "TIMEZONE=UTC0"]
  {
    assert "RELEASE" + ['='] + "8.0" == "RELEASE=8.0";
    assert "SYSNAME" + ['='] + "QNX" == "SYSNAME=QNX";
    assert "TIMEZONE" + ['='] + "UTC0" == "TIMEZONE=UTC0";
  }

  function CpuLine(): string {
    "ARCHITECTURE=x86_64" + (" " + "CPU=x86_64" + " " + "ENDIAN=le" + " " + "HASVERSION=1")
  }

  function HostLine(): string {
    " " + "HOSTNAME=qnxmock" + " " + "MACHINE=x86pc" + " " + "NUM_SRVCS=1" + " " + "OS=nto"
  }

  function SystemLine(): string {
    " " + "RELEASE=8.0" + " " + "SYSNAME=QNX" + " " + "TIMEZONE=UTC0"
  }

  lemma MockParts()
    ensures AttributeLine(MOCK_CPU) == CpuLine()
    ensures Spaced(AttributeTexts(MOCK_HOST)) == HostLine()
    ensures Spaced(AttributeTexts(MOCK_SYSTEM)) == SystemLine()
  {
    MockCpuTexts();
    MockHostTexts();
    MockSystemTexts();
    assert AttributeTexts(MOCK_CPU)[1..] == ["CPU=x86_64", "ENDIAN=le", "HASVERSION=1"];
    SpacedThree("CPU=x86_64", "ENDIAN=le", "HASVERSION=1");
    SpacedFour("HOSTNAME=qnxmock", "MACHINE=x86pc", "NUM_SRVCS=1", "OS=nto");
    SpacedThree("RELEASE=8.0", "SYSNAME=QNX", "TIMEZONE=UTC0");
  }

  /** The line of internal/mockqnx/shell.go:11-13. */
  lemma MockInfoLine()
    ensures InfoLine(MOCK_TABLES) ==
      CpuLine() + HostLine() + SystemLine() + " " + ("VERSION" + "=" + "2024/01/01-00:00:00UTC")
  {
    MockParts();
    AttributesNext(MOCK_CPU, MOCK_HOST);
    AttributesNext(MOCK_CPU + MOCK_HOST, MOCK_SYSTEM);
    AttributeNext(MOCK_CPU + MOCK_HOST + MOCK_SYSTEM, MOCK_BUILD);
  }

  // ----- sessions -----

  lemma TableNext(pairs: seq<(string, int)>, key: string, value: int)
    ensures Table(pairs + [(key, value)]) == Table(pairs)[key := value]
  {
    assert (pairs + [(key, value)])[..|pairs|] == pairs;
  }

  lemma FivePairs(a: string, b: string, c: string, d: string, e: string, n: int)
    ensures Table([(a, n), (b, n), (c, n), (d, n), (e, n)]) == map[a := n, b := n, c := n, d := n, e := n]
  {
    assert Table<int>([]) == map[];
    assert [(a, n)] == [] + [(a, n)] && [(a, n), (b, n)] == [(a, n)] + [(b, n)];
    assert [(a, n), (b, n), (c, n)] == [(a, n), (b, n)] + [(c, n)];
    assert [(a, n), (b, n), (c, n), (d, n)] == [(a, n), (b, n), (c, n)] + [(d, n)];
    assert [(a, n), (b, n), (c, n), (d, n), (e, n)] == [(a, n), (b, n), (c, n), (d, n)] + [(e, n)];
    TableNext([], a, n);
    TableNext([(a, n)], b, n);
    TableNext([(a, n), (b, n)], c, n);
    TableNext([(a, n), (b, n), (c, n)], d, n);
    TableNext([(a, n), (b, n), (c, n), (d, n)], e, n);
  }

  /** What the client's `Versions` returns against the mock. */
  lemma MockVersions(files: Files)
    ensures ResultOf(MOCK_TABLES, files, Versions) ==
      Numbers(map["broker" := 256, "launcher" := 256, "file" := 256, "cntl" := 256, "sinfo" := 256])
  {
    assert VersionPairs(MOCK_VERSIONS) ==
      [("broker", 256), ("launcher", 256), ("file", 256), ("cntl", 256), ("sinfo", 256)];
    FivePairs("broker", "launcher", "file", "cntl", "sinfo", 256);
  }

  /** A session with the mock itself. */
  method Session(launch: string -> string, calls: seq<Call>) returns (results: seq<Result>, client: Client)
    requires |calls| + 3 <= MAX_INT64
    requires forall i | 0 <= i < |calls| :: Admissible(calls[i])
    requires forall i | 0 <= i < |calls| - 1 :: KeepsStep(calls[i])
    ensures fresh(client) && fresh(client.daemon) && client.daemon.host == Host(MOCK_TABLES, launch)
    ensures results == PerformAll(MOCK_TABLES, map[], calls).results
    ensures client.Valid() <==> forall i | 0 <= i < |calls| :: KeepsStep(calls[i])
    ensures client.Valid() ==> client.daemon.files == PerformAll(MOCK_TABLES, map[], calls).files
  {
    MockIsReportable();
    results, client := MockSession(Host(MOCK_TABLES, launch), calls);
  }
}
