/** The rendering decisions of one project card: technology badges looked up in a
    fixed icon table with a text fallback, the Code and Live links shown only for
    non-empty URLs, and an entrance delay proportional to the card's position. */
module ProjectCard {

  /** One entry of the project catalog. */
  datatype Project = Project(
    id: int,
    title: string,
    description: string,
    image: string,
    technologies: seq<string>,
    github: string,
    demo: string,
    category: string,
    year: string)

  /** The icons the technology table can show. */
  datatype Icon =
    | SiReact | SiReactivex | SiNodedotjs | SiMongodb | SiExpress | SiPostman | SiVercel
    | SiGit | SiGithub | SiSocketdotio | SiJsonwebtokens | SiExpo | SiChartdotjs

  /** The fixed technology-to-icon table. */
  const TechIcons: map<string, Icon> := map[
    "React" := SiReact,
    "React Native" := SiReactivex,
    "Nodejs" := SiNodedotjs,
    "Node.js" := SiNodedotjs,
    "MongoDB" := SiMongodb,
    "Express" := SiExpress,
    "Postman" := SiPostman,
    "Vercel" := SiVercel,
    "Git" := SiGit,
    "GitHub" := SiGithub,
    "Socket.io" := SiSocketdotio,
    "JWT" := SiJsonwebtokens,
    "Expo" := SiExpo,
    "Chart.js" := SiChartdotjs
  ]

  /** What a card shows for one technology: its icon, or its own name as text. */
  datatype Badge = IconBadge(icon: Icon) | TextBadge(text: string)

  /** The technology a badge stands for can be recovered from text badges, and an
      icon badge is shown exactly for the technologies of the table. */
  function TechBadge(tech: string): (b: Badge)
    ensures b.IconBadge? <==> tech in TechIcons
    ensures b.IconBadge? ==> b.icon == TechIcons[tech]
    ensures b.TextBadge? ==> b.text == tech
  {
    if tech in TechIcons then IconBadge(TechIcons[tech]) else TextBadge(tech)
  }

  /** One badge per technology, in the order of the technology list. */
  function Badges(techs: seq<string>): (bs: seq<Badge>)
    ensures |bs| == |techs|
    ensures forall k :: 0 <= k < |techs| ==> bs[k] == TechBadge(techs[k])
  {
    if techs == [] then [] else [TechBadge(techs[0])] + Badges(techs[1..])
  }

  /** "Nodejs" and "Node.js" are drawn with the same icon. */
  lemma NodeSpellingsShareIcon()
    ensures TechBadge("Nodejs") == TechBadge("Node.js") == IconBadge(SiNodedotjs)
  {
  }

  /** A technology missing from the table falls back to a text badge with its name,
      wherever it stands in the list. */
  lemma UnknownTechShownAsText(techs: seq<string>, k: nat)
    requires k < |techs| && techs[k] !in TechIcons
    ensures Badges(techs)[k] == TextBadge(techs[k])
  {
  }

  /** The links under a card. */
  datatype Link = CodeLink(href: string) | LiveLink(href: string)

  /** The Code link comes first when present, then the Live link. */
  function Links(p: Project): (ls: seq<Link>)
    ensures CodeLink(p.github) in ls <==> p.github != ""
    ensures LiveLink(p.demo) in ls <==> p.demo != ""
    ensures |ls| == (if p.github != "" then 1 else 0) + (if p.demo != "" then 1 else 0)
    ensures forall l :: l in ls ==> l == CodeLink(p.github) || l == LiveLink(p.demo)
    ensures p.github != "" ==> ls[0] == CodeLink(p.github)
    ensures p.demo != "" ==> ls[|ls| - 1] == LiveLink(p.demo)
  {
    (if p.github != "" then [CodeLink(p.github)] else [])
      + (if p.demo != "" then [LiveLink(p.demo)] else [])
  }

  /** Entrance delay of the card at position `index`, in tenths of a second
      (0.2 s per position). */
  function EntranceDelay(index: nat): (tenths: nat)
    ensures index > 0 ==> tenths > 0
    ensures tenths % 2 == 0 && tenths / 2 == index
  {
    2 * index
  }

  /** Later cards never start before earlier ones. */
  lemma EntranceDelayMonotone(i: nat, j: nat)
    requires i <= j
    ensures EntranceDelay(i) <= EntranceDelay(j)
  {
  }

  /** Everything that a rendered card decides. */
  datatype CardView = CardView(
    title: string,
    year: string,
    description: string,
    image: string,
    badges: seq<Badge>,
    links: seq<Link>,
    delayTenths: nat)

  /** The card for `p` shown at position `index`. */
  function Render(p: Project, index: nat): (v: CardView)
    ensures v.badges == Badges(p.technologies) && |v.badges| == |p.technologies|
    ensures v.links == Links(p) && v.image == p.image
    ensures v.delayTenths == EntranceDelay(index)
    ensures v.title == p.title && v.year == p.year && v.description == p.description
  {
    CardView(p.title, p.year, p.description, p.image, Badges(p.technologies), Links(p), EntranceDelay(index))
  }
}
