/**
  The deployment descriptors CoreUtils writes as text: jboss-ejb3.xml,
  jboss-web.xml and jboss-deployment-structure.xml.

  Each document is a fixed head, the caller's names (each inside its own
  element, in order) and a fixed tail. For each there is a reader that
  takes the document apart again; the lemmas show the reader recovers
  exactly the names that went in.
 */
module Descriptors {
  import opened JavaLang
  import opened Framing

  // ---------------------------------------------------------------------
  // jboss-ejb3.xml (getJBossEjb3XmlAsset)
  // ---------------------------------------------------------------------

  const Ejb3Head: string :=
    "<jboss:ejb-jar xmlns:jboss='http://www.jboss.com/xml/ns/javaee'"
    + "\n\txmlns='http://java.sun.com/xml/ns/javaee'"
    + "\n\txmlns:s='urn:security'"
    + "\n\tversion='3.1'"
    + "\n\timpl-version='2.0'>"
    + "\n\t<assembly-descriptor><s:security>"
    + "\n\t\t<ejb-name>*</ejb-name>"
    + "\n\t\t<s:security-domain>"

  const Ejb3Tail: string :=
    "</s:security-domain>"
    + "\n\t</s:security></assembly-descriptor>"
    + "\n</jboss:ejb-jar>"

  /**
    `getJBossEjb3XmlAsset(securityDomain)`: the fixed jboss-ejb3.xml text with
    the domain (or "null") as the content of `s:security-domain`; the
    domain is what lies between the fixed head and tail.
   */
  function JBossEjb3Xml(securityDomain: JString): (xml: string)
    ensures Between(xml, Ejb3Head, Ejb3Tail) == Some(Text(securityDomain))
  {
    var xml := Ejb3Head + Text(securityDomain) + Ejb3Tail;
    BetweenOf(Ejb3Head, Text(securityDomain), Ejb3Tail);
    xml
  }

  /** Different domain texts give different documents. */
  lemma JBossEjb3XmlInjective(a: JString, b: JString)
    requires JBossEjb3Xml(a) == JBossEjb3Xml(b)
    ensures Text(a) == Text(b)
  {
  }

  // ---------------------------------------------------------------------
  // jboss-web.xml (getJBossWebXmlAsset)
  // ---------------------------------------------------------------------

  // The literal pieces `getJBossWebXmlAsset` appends around the caller's names.
  const WebHead: string := "<jboss-web>" + "\n\t<security-domain>"
  const DomainClose: string := "</security-domain>"
  const ValveOpen: string := "\n\t<valve><class-name>"
  const ValveClose: string := "</class-name></valve>"
  const WebTail: string := "\n</jboss-web>"

  /** The valve class names that get an element: the non-null, non-empty ones, in order. */
  function ValveNames(valves: seq<JString>): (names: seq<string>)
    ensures |names| <= |valves|
    ensures forall i :: 0 <= i < |names| ==> |names[i]| > 0
  {
    if |valves| == 0 then []
    else
      var last := valves[|valves| - 1];
      ValveNames(valves[..|valves| - 1]) + (if IsNotEmpty(last) then [last.value] else [])
  }

  /** Specification of `getJBossWebXmlAsset`: head, domain, one valve element per kept name, tail. */
  function WebXml(securityDomain: JString, valves: seq<JString>): string {
    WebHead + Text(securityDomain) + DomainClose + Framed(ValveOpen, ValveClose, ValveNames(valves)) + WebTail
  }

  /** Reader for jboss-web.xml: the security domain and the valve class names, in document order. */
  function WebXmlContents(xml: string): Option<(string, seq<string>)> {
    match Between(xml, WebHead, WebTail)
    case None => None
    case Some(body) =>
      var domain := TakeUntil(body, '<');
      var rest := body[|domain|..];
      if |DomainClose| <= |rest| && rest[..|DomainClose|] == DomainClose then
        match ParseFramed(ValveOpen, ValveClose, rest[|DomainClose|..])
        case Some(names) => Some((domain, names))
        case None => None
      else None
  }

  /**
    `getJBossWebXmlAsset(securityDomain, valveClassNames...)`: appends the
    head and domain, then one valve element for each non-empty name, then
    the tail; a null array contributes no valves.
   */
  method JBossWebXml(securityDomain: JString, valveClassNames: array?<JString>) returns (xml: string)
    ensures xml == WebXml(securityDomain, VarArgs(valveClassNames))
  {
    var sb := WebHead + Text(securityDomain) + DomainClose;
    ghost var head := sb;
    assert sb == head + Framed(ValveOpen, ValveClose, []);
    if valveClassNames != null {
      var i := 0;
      while i < valveClassNames.Length
        invariant 0 <= i <= valveClassNames.Length
        invariant sb == head + Framed(ValveOpen, ValveClose, ValveNames(valveClassNames[..i]))
      {
        var valveClassName := valveClassNames[i];
        assert valveClassNames[..i + 1] == valveClassNames[..i] + [valveClassName];
        ValveNamesSnoc(valveClassNames[..i], valveClassName);
        ghost var names := ValveNames(valveClassNames[..i]);
        if IsNotEmpty(valveClassName) {
          FramedAppend(head, ValveOpen, ValveClose, names, valveClassName.value);
          sb := sb + ValveOpen + valveClassName.value + ValveClose;
          assert ValveNames(valveClassNames[..i + 1]) == names + [valveClassName.value];
        } else {
          assert ValveNames(valveClassNames[..i + 1]) == names;
        }
        i := i + 1;
      }
      assert valveClassNames[..i] == valveClassNames[..];
    }
    sb := sb + WebTail;
    xml := sb;
  }

  /** One more valve name adds an element exactly when it is non-empty. */
  lemma ValveNamesSnoc(valves: seq<JString>, v: JString)
    ensures ValveNames(valves + [v]) == ValveNames(valves) + (if IsNotEmpty(v) then [v.value] else [])
  {
    assert (valves + [v])[..|valves|] == valves;
  }

  /** A kept valve name is a non-empty name given by the caller, and every such name is kept. */
  lemma {:induction false} ValveNamesMembers(valves: seq<JString>, x: string)
    ensures x in ValveNames(valves) <==> x != "" && Some(x) in valves
  {
    if |valves| > 0 {
      var init := valves[..|valves| - 1];
      ValveNamesMembers(init, x);
      assert valves == init + [valves[|valves| - 1]];
    }
  }

  /** When no name is null or empty, nothing is dropped and the names stay in order. */
  lemma {:induction false} ValveNamesAllKept(valves: seq<JString>)
    requires forall i :: 0 <= i < |valves| ==> IsNotEmpty(valves[i])
    ensures ValveNames(valves) == Texts(valves)
  {
    if |valves| > 0 {
      ValveNamesAllKept(valves[..|valves| - 1]);
    }
  }

  /** A character no given name contains is in no kept valve name. */
  lemma {:induction false} ValveNamesExclude(valves: seq<JString>, c: char)
    requires forall i :: 0 <= i < |valves| ==> valves[i].Some? ==> c !in valves[i].value
    ensures forall i :: 0 <= i < |ValveNames(valves)| ==> c !in ValveNames(valves)[i]
  {
    if |valves| > 0 {
      ValveNamesExclude(valves[..|valves| - 1], c);
    }
  }

  /** The body of jboss-web.xml splits at the first '<' into the domain and the valve elements. */
  lemma WebBodySplit(domain: string, framed: string)
    requires '<' !in domain
    ensures var body := domain + DomainClose + framed;
      && TakeUntil(body, '<') == domain
      && body[|domain|..][..|DomainClose|] == DomainClose
      && body[|domain|..][|DomainClose|..] == framed
  {
    var body := domain + DomainClose + framed;
    assert body == domain + ['<'] + (DomainClose[1..] + framed);
    TakeUntilFirst(domain, '<', DomainClose[1..] + framed);
    assert body[|domain|..] == DomainClose + framed;
  }

  /**
    Five texts joined in a row, grouped around the middle three. Stated over
    plain strings so that the long literal pieces of jboss-web.xml are not
    unfolded when the document is regrouped.
   */
  lemma Regroup(a: string, b: string, c: string, d: string, e: string)
    ensures a + b + c + d + e == a + (b + c + d) + e
  {
  }

  /** Any document laid out as jboss-web.xml, with no '<' in the domain or the names, is read back exactly. */
  lemma WebDocumentRoundTrip(domain: string, names: seq<string>)
    requires '<' !in domain
    requires forall i :: 0 <= i < |names| ==> '<' !in names[i]
    ensures WebXmlContents(WebHead + domain + DomainClose + Framed(ValveOpen, ValveClose, names) + WebTail)
      == Some((domain, names))
  {
    var framed := Framed(ValveOpen, ValveClose, names);
    var body := domain + DomainClose + framed;
    Regroup(WebHead, domain, DomainClose, framed, WebTail);
    BetweenOf(WebHead, body, WebTail);
    WebBodySplit(domain, framed);
    assert ValveClose[0] == '<';
    ParseFramedRoundTrip(ValveOpen, ValveClose, names);
    var rest := body[|domain|..];
    assert |DomainClose| <= |rest| && rest[..|DomainClose|] == DomainClose;
    assert ParseFramed(ValveOpen, ValveClose, rest[|DomainClose|..]) == Some(names);
  }

  /** Reading back a generated jboss-web.xml gives the domain and exactly the kept valve names, in order. */
  lemma WebXmlRoundTrip(securityDomain: JString, valves: seq<JString>)
    requires '<' !in Text(securityDomain)
    requires forall i :: 0 <= i < |valves| ==> valves[i].Some? ==> '<' !in valves[i].value
    ensures WebXmlContents(WebXml(securityDomain, valves)) == Some((Text(securityDomain), ValveNames(valves)))
  {
    ValveNamesExclude(valves, '<');
    WebDocumentRoundTrip(Text(securityDomain), ValveNames(valves));
  }

  // ---------------------------------------------------------------------
  // jboss-deployment-structure.xml (getJBossDeploymentStructure)
  // ---------------------------------------------------------------------

  // The literal pieces `getJBossDeploymentStructure` appends around the module names.
  const DeploymentHead: string := "<jboss-deployment-structure><deployment><dependencies>"
  const ModuleOpen: string := "\n\t<module name='"
  const ModuleClose: string := "'/>"
  const DeploymentTail: string := "\n</dependencies></deployment></jboss-deployment-structure>"

  /** Specification of `getJBossDeploymentStructure`: head, one module element per dependency, tail. */
  function DeploymentStructureXml(dependencies: seq<JString>): string {
    DeploymentHead + Framed(ModuleOpen, ModuleClose, Texts(dependencies)) + DeploymentTail
  }

  /** Reader for jboss-deployment-structure.xml: the module names, in document order. */
  function DeploymentModules(xml: string): Option<seq<string>> {
    match Between(xml, DeploymentHead, DeploymentTail)
    case None => None
    case Some(body) => ParseFramed(ModuleOpen, ModuleClose, body)
  }

  /**
    `getJBossDeploymentStructure(dependencies...)`: appends the head, one
    module element per dependency (a null name as "null"), then the tail;
    a null array contributes no modules.
   */
  method JBossDeploymentStructure(dependencies: array?<JString>) returns (xml: string)
    ensures xml == DeploymentStructureXml(VarArgs(dependencies))
  {
    var sb := DeploymentHead;
    assert sb == DeploymentHead + Framed(ModuleOpen, ModuleClose, []);
    if dependencies != null {
      var i := 0;
      while i < dependencies.Length
        invariant 0 <= i <= dependencies.Length
        invariant sb == DeploymentHead + Framed(ModuleOpen, ModuleClose, Texts(dependencies[..i]))
      {
        var moduleName := dependencies[i];
        assert dependencies[..i + 1][..i] == dependencies[..i];
        ghost var names := Texts(dependencies[..i]);
        assert Texts(dependencies[..i + 1]) == names + [Text(moduleName)];
        FramedAppend(DeploymentHead, ModuleOpen, ModuleClose, names, Text(moduleName));
        sb := sb + ModuleOpen + Text(moduleName) + ModuleClose;
        i := i + 1;
      }
      assert dependencies[..i] == dependencies[..];
    }
    sb := sb + DeploymentTail;
    xml := sb;
  }

  /** Exactly one module element per dependency, in order: reading the document back gives every name. */
  lemma DeploymentStructureRoundTrip(dependencies: seq<JString>)
    requires forall i :: 0 <= i < |dependencies| ==> '\'' !in Text(dependencies[i])
    ensures DeploymentModules(DeploymentStructureXml(dependencies)) == Some(Texts(dependencies))
  {
    var names := Texts(dependencies);
    BetweenOf(DeploymentHead, Framed(ModuleOpen, ModuleClose, names), DeploymentTail);
    ParseFramedRoundTrip(ModuleOpen, ModuleClose, names);
  }

  /** Conversely, any text the reader accepts is the document generated for the names it reads. */
  lemma DeploymentModulesSound(xml: string)
    requires DeploymentModules(xml).Some?
    ensures var names := DeploymentModules(xml).value;
      && xml == DeploymentStructureXml(seq(|names|, i requires 0 <= i < |names| => Some(names[i])))
      && forall i :: 0 <= i < |names| ==> '\'' !in names[i]
  {
    var body := Between(xml, DeploymentHead, DeploymentTail).value;
    var names := DeploymentModules(xml).value;
    ParseFramedSound(ModuleOpen, ModuleClose, body);
    var deps := seq(|names|, i requires 0 <= i < |names| => Some(names[i]));
    assert Texts(deps) == names;
  }
}
