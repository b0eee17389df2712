/**
 * The site-wide navigation helpers: the phase lookup table, the "Phase N" label,
 * the breadcrumb trail and the highlighting of the current page in the top menu.
 */
module Navigation {
  import opened Wrappers
  import opened Strings

  datatype PhaseInfo = PhaseInfo(name: string, folder: string)

  /** The object literal inside getPhaseInfo: phase key to display name and content folder. */
  const PhaseTable: map<string, PhaseInfo> := map[
    "0" := PhaseInfo("Reflection Journal", "0_reflection_journal"),
    "1" := PhaseInfo("Idea Generation", "1_idea_generation"),
    "2" := PhaseInfo("Proposal", "2_proposal"),
    "3" := PhaseInfo("Literature Review", "3_literature_review"),
    "4" := PhaseInfo("Theoretical Framework", "4_theoretical_framework"),
    "5" := PhaseInfo("Design", "5_design"),
    "6" := PhaseInfo("Data Collection", "6_data_collection"),
    "7" := PhaseInfo("Data Analysis", "7_data_analysis"),
    "8" := PhaseInfo("Report", "8_report")
  ]

  /** A phase key: a single digit from 0 to 8. */
  predicate IsPhaseKey(key: string) {
    |key| == 1 && '0' <= key[0] <= '8'
  }

  /** The phase number a key stands for. */
  function PhaseNumber(key: string): (n: nat)
    requires IsPhaseKey(key)
    ensures n <= 8
  {
    key[0] as int - '0' as int
  }

  /** getPhaseInfo, looking at the table's own keys only; null for any other key. */
  function GetPhaseInfo(key: string): (r: Option<PhaseInfo>)
    ensures r.Some? ==> IsPhaseKey(key)
    ensures r.Some? ==> StartsWith(r.value.folder, key + "_") && r.value.name != ""
  {
    if key in PhaseTable then Some(PhaseTable[key]) else None
  }

  /** getPhaseInfo has an entry for exactly the keys "0" to "8". */
  lemma GetPhaseInfoKeys(key: string)
    ensures GetPhaseInfo(key).Some? <==> IsPhaseKey(key)
  {
    if IsPhaseKey(key) {
      assert key == [key[0]];
    }
  }

  /** The entry of a valid phase key. */
  function PhaseOf(key: string): (info: PhaseInfo)
    requires IsPhaseKey(key)
    ensures GetPhaseInfo(key) == Some(info)
  {
    GetPhaseInfoKeys(key);
    PhaseTable[key]
  }

  /** The members every object literal inherits from Object.prototype; each is truthy. */
  const ObjectPrototypeMembers: set<string> := {
    "constructor", "__proto__", "toString", "toLocaleString", "valueOf",
    "hasOwnProperty", "isPrototypeOf", "propertyIsEnumerable",
    "__defineGetter__", "__defineSetter__", "__lookupGetter__", "__lookupSetter__"
  }

  /** What `phases[phaseNumber] || null` yields on a plain object literal. */
  datatype PropertyLookup = OwnEntry(info: PhaseInfo) | Inherited(member: string) | Null

  /** getPhaseInfo as written: the bracket lookup also reaches inherited members. */
  function GetPhaseInfoAsWritten(key: string): (r: PropertyLookup)
    ensures r.OwnEntry? <==> GetPhaseInfo(key).Some?
    ensures r.Inherited? <==> key in ObjectPrototypeMembers
  {
    if key in PhaseTable then OwnEntry(PhaseTable[key])
    else if key in ObjectPrototypeMembers then Inherited(key)
    else Null
  }

  /** The "Invalid phase number" guard as written lets "constructor" through, though no phase has that key. */
  lemma AsWrittenGuardAcceptsConstructor()
    ensures GetPhaseInfoAsWritten("constructor") != Null
    ensures GetPhaseInfo("constructor").None?
  {
    assert "constructor" in ObjectPrototypeMembers;
  }

  /** formatPhaseNumber: the label "Phase " followed by the number, which can be read back. */
  function FormatPhaseNumber(phaseNumber: string): (r: string)
    ensures StartsWith(r, "Phase ") && r[6..] == phaseNumber
  {
    "Phase " + phaseNumber
  }

  /** One breadcrumb item: its text and an optional link target. */
  datatype Crumb = Crumb(text: string, href: Option<string>)

  /** A rendered `li`: either an anchor or plain text. */
  datatype CrumbNode = LinkNode(href: string, text: string) | TextNode(text: string)

  /**
   * The list items createBreadcrumb renders: one per item, in order, with the
   * item's text; an item is a link exactly when it is not the last one and has
   * a non-empty href, so the last item is always plain text.
   */
  function CrumbNodes(items: seq<Crumb>): (r: seq<CrumbNode>)
    ensures |r| == |items|
    ensures forall i :: 0 <= i < |items| ==> r[i].text == items[i].text
    ensures forall i :: 0 <= i < |items| ==>
      (r[i].LinkNode? <==> i < |items| - 1 && Truthy(items[i].href))
    ensures forall i :: 0 <= i < |items| && r[i].LinkNode? ==> Some(r[i].href) == items[i].href
    ensures |items| > 0 ==> r[|items| - 1].TextNode?
  {
    seq(|items|, i requires 0 <= i < |items| =>
      if i < |items| - 1 && Truthy(items[i].href) then LinkNode(items[i].href.value, items[i].text)
      else TextNode(items[i].text))
  }

  /** The breadcrumb's `ol` element, with its list items as children. */
  class BreadcrumbList {
    var children: seq<CrumbNode>

    constructor ()
      ensures children == []
    {
      children := [];
    }
  }

  /** createBreadcrumb: with no breadcrumb list on the page nothing happens; otherwise the list is cleared and refilled. */
  method CreateBreadcrumb(ol: BreadcrumbList?, items: seq<Crumb>)
    modifies ol
    ensures ol != null ==> ol.children == CrumbNodes(items)
  {
    if ol == null {
      return;
    }
    ol.children := [];
    var index := 0;
    while index < |items|
      invariant 0 <= index <= |items|
      invariant ol.children == CrumbNodes(items)[..index]
    {
      var item := items[index];
      var li;
      if index < |items| - 1 && Truthy(item.href) {
        li := LinkNode(item.href.value, item.text);
      } else {
        li := TextNode(item.text);
      }
      ol.children := ol.children + [li];
      index := index + 1;
    }
  }

  /** The current path ends with the link's path, or with that path minus its first ".html". */
  predicate PathMatches(currentPath: string, linkPath: string) {
    EndsWith(currentPath, linkPath) || EndsWith(currentPath, ReplaceFirst(linkPath, ".html", ""))
  }

  /** A menu link is the current page when the paths match and the `phase` parameters are equal (absent equals absent). */
  predicate IsCurrentLink(currentPath: string, currentPhase: Option<string>, linkPath: string, linkPhase: Option<string>) {
    PathMatches(currentPath, linkPath) && currentPhase == linkPhase
  }

  /** An anchor of the top menu: its resolved path, its `phase` parameter and its class list. */
  class NavLink {
    const path: string
    const phase: Option<string>
    var classes: set<string>

    constructor (path: string, phase: Option<string>, classes: set<string>)
      ensures this.path == path && this.phase == phase && this.classes == classes
    {
      this.path := path;
      this.phase := phase;
      this.classes := classes;
    }
  }

  /** The class list a link ends with: "active" removed, then added back when the link is the current page. */
  function Highlighted(classes: set<string>, current: bool): set<string> {
    (classes - {"active"}) + (if current then {"active"} else {})
  }

  /**
   * highlightCurrentPage: every menu link loses "active", then gets it back
   * exactly when it is the current page; its other classes are untouched.
   */
  method HighlightCurrentPage(currentPath: string, currentPhase: Option<string>, links: seq<NavLink>)
    modifies set l | l in links
    ensures forall i :: 0 <= i < |links| ==>
      links[i].classes == Highlighted(old(links[i].classes), IsCurrentLink(currentPath, currentPhase, links[i].path, links[i].phase))
  {
    var n := 0;
    while n < |links|
      invariant 0 <= n <= |links|
      invariant forall i :: 0 <= i < |links| ==>
        links[i].classes == if links[i] in links[..n]
          then Highlighted(old(links[i].classes), IsCurrentLink(currentPath, currentPhase, links[i].path, links[i].phase))
          else old(links[i].classes)
    {
      var link := links[n];
      link.classes := link.classes - {"active"};
      if EndsWith(currentPath, link.path) || EndsWith(currentPath, ReplaceFirst(link.path, ".html", "")) {
        if currentPhase == None && link.phase == None {
          link.classes := link.classes + {"active"};
        } else if currentPhase == link.phase {
          link.classes := link.classes + {"active"};
        }
      }
      n := n + 1;
    }
  }
}
