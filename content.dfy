/**
 * Content shaping of `generate_mock_content` and `generate_content`: the
 * fixed phrase tables, the time-of-day bucket, the eight fallback templates
 * and the choice between the text-generation answer and the fallback.
 * Every `random.choice` becomes an index in a `MockPick`; the wall-clock
 * hour becomes the pick's `hour`.
 */
module Content {
  import Formatter

  /** `topics_of_interest`, in list order. */
  const Topics: seq<string> :=
    [ "software development",
      "tech entrepreneurship",
      "AI/ML engineering",
      "full-stack development",
      "system architecture",
      "cloud solutions",
      "coding best practices",
      "tech career growth",
      "developer mindset",
      "tech innovation",
      "startup tech",
      "modern web dev",
      "backend engineering",
      "API development",
      "database optimization",
      "scalable systems",
      "tech leadership",
      "code quality",
      "developer tools",
      "automation",
      "tech interviews",
      "software testing",
      "continuous learning",
      "tech community",
      "open source",
      "side projects",
      "tech mentorship",
      "coding challenges",
      "tech stack choices",
      "system design"
    ]

  const PrimaryHashtags: seq<string> :=
    [ "#TechTwitter",
      "#CodeNewbie",
      "#100DaysOfCode",
      "#Developer",
      "#SoftwareEngineer",
      "#WebDev",
      "#Programming",
      "#CodingLife",
      "#TechTalent",
      "#DevCommunity",
      "#CodeLife",
      "#TechCareer"
    ]

  const TechHashtags: seq<string> :=
    [ "#Python",
      "#JavaScript",
      "#React",
      "#NodeJS",
      "#AWS",
      "#Cloud",
      "#Docker",
      "#Kubernetes",
      "#AI",
      "#MachineLearning",
      "#DataScience",
      "#FullStack",
      "#BackEnd",
      "#DevOps"
    ]

  const GrowthHashtags: seq<string> :=
    [ "#CareerGrowth",
      "#TechGrowth",
      "#LearnToCode",
      "#DevLife",
      "#CodingTips",
      "#TechAdvice",
      "#BuildInPublic",
      "#DevJourney",
      "#CodeMentor"
    ]

  const EngagementHooks: seq<string> :=
    [ "\U{1F914} What's your take on this?",
      "\U{1F4AD} Share your experience!",
      "\U{1F447} Drop your favorite tool below",
      "\U{1F504} RT if you agree",
      "\U{2764}\U{FE0F} Like if you've experienced this",
      "\U{1F4A1} What would you add?",
      "\U{1F3AF} Tag someone who needs to see this",
      "\U{1F4CA} Which approach do you prefer?",
      "\U{1F680} Share your success stories!",
      "\U{1F4AA} How do you handle this challenge?"
    ]

  datatype DayPart = Morning | Afternoon | Evening

  /** The bucket of `time_based_content` used at a given hour of the day. */
  function DayPartOf(hour: int): DayPart {
    if 5 <= hour < 12 then Morning
    else if 12 <= hour < 17 then Afternoon
    else Evening
  }

  /** The intro phrases of one bucket. */
  function Intros(part: DayPart): seq<string> {
    match part
    case Morning => ["\U{2600}\U{FE0F} Morning motivation for devs", "\U{1F3AF} Set your coding goals", "\U{1F4A1} Start your day with this tech tip"]
    case Afternoon => ["\U{26A1} Quick productivity hack", "\U{1F50D} Deep dive into tech", "\U{1F4BB} Coding challenge time"]
    case Evening => ["\U{1F4DA} Evening learning session", "\U{1F914} Reflect on your code", "\U{1F31F} Share your daily win"]
  }

  /**
   * The hours of the day by bucket: 05:00-11:59 morning, 12:00-16:59
   * afternoon, every other hour evening.
   */
  lemma DayPartRanges(hour: int)
    requires 0 <= hour < 24
    ensures DayPartOf(hour) == Morning <==> 5 <= hour <= 11
    ensures DayPartOf(hour) == Afternoon <==> 12 <= hour <= 16
    ensures DayPartOf(hour) == Evening <==> hour <= 4 || 17 <= hour
  {
  }

  /** The hour-by-hour table of buckets for one day, written out. */
  const DayPartsByHour: seq<DayPart> :=
    [ Evening, Evening, Evening, Evening, Evening,
      Morning, Morning, Morning, Morning, Morning, Morning, Morning,
      Afternoon, Afternoon, Afternoon, Afternoon, Afternoon,
      Evening, Evening, Evening, Evening, Evening, Evening, Evening ]

  /** The bucket choice agrees with the table at every hour of the day. */
  lemma DayPartTable()
    ensures |DayPartsByHour| == 24
    ensures forall hour :: 0 <= hour < 24 ==> DayPartOf(hour) == DayPartsByHour[hour]
  {
  }

  /** Every bucket holds three phrases. */
  lemma IntrosSize(part: DayPart)
    ensures |Intros(part)| == 3
  {
  }

  /** The number of fallback templates. */
  const TemplateCount := 8

  /** The text of template `t` before the topic. */
  function Lead(t: nat, intro: string): string
    requires t < TemplateCount
  {
    match t
    case 0 => intro + "\n\n\U{1F4A1} "
    case 1 => "\U{1F525} Want to excel in "
    case 2 => "\U{1F680} "
    case 3 => intro + "\n\nMy top 3 tools for "
    case 4 => "\U{1F48E} "
    case 5 => "\U{1F4C8} Boost your "
    case 6 => "\U{26A1} Quick "
    case _ => "\U{1F3AF} "
  }

  /** The text of template `t` between the topic and the engagement hook. */
  function Body(t: nat): string
    requires t < TemplateCount
  {
    match t
    case 0 => " pro tip:\n\U{2022} Start small\n\U{2022} Build consistently\n\U{2022} Share progress"
    case 1 => "?\n\n3 game-changing practices:\n1\U{FE0F}\U{20E3} Code daily\n2\U{FE0F}\U{20E3} Read documentation\n3\U{FE0F}\U{20E3} Build projects"
    case 2 => " wisdom:\n\nWhat I wish I knew earlier:\n\U{2022} Test early\n\U{2022} Document well\n\U{2022} Seek feedback"
    case 3 => ":\n\U{1F6E0}\U{FE0F} [Tool 1]\n\U{26A1} [Tool 2]\n\U{1F527} [Tool 3]"
    case 4 => " golden rule:\n\nDon't just write code.\nWrite code that tells a story."
    case 5 => " skills:\n\nKey focus areas:\n\U{2022} Core concepts\n\U{2022} Best practices\n\U{2022} Real projects"
    case 6 => " tip:\n\nAlways remember:\nCode for humans first,\ncomputers second."
    case _ => " challenge:\n\nBuild something useful today.\nShare your progress.\nSupport others."
  }

  /** Template `t` of the fallback, filled in. */
  function Template(t: nat, intro: string, topic: string, hook: string, hashtags: string): string
    requires t < TemplateCount
  {
    Lead(t, intro) + topic + Body(t) + "\n\n" + hook + "\n\n" + hashtags
  }

  /** The outcomes of the random choices of `generate_mock_content`, and the hour. */
  datatype MockPick = MockPick(
    topic: nat, primary: nat, tech: nat, growth: nat, hook: nat,
    hour: int, intro: nat, template: nat)

  /** Each index lies in its list, as `random.choice` guarantees. */
  predicate ValidPick(p: MockPick) {
    && p.topic < |Topics|
    && p.primary < |PrimaryHashtags| && p.tech < |TechHashtags| && p.growth < |GrowthHashtags|
    && p.hook < |EngagementHooks|
    && p.intro < 3
    && p.template < TemplateCount
  }

  /** `f"{primary_tag} {tech_tag} {growth_tag}"`. */
  function HashtagLine(p: MockPick): string
    requires ValidPick(p)
  {
    PrimaryHashtags[p.primary] + " " + TechHashtags[p.tech] + " " + GrowthHashtags[p.growth]
  }

  /** The intro phrase for the pick's hour. */
  function TimeIntro(p: MockPick): string
    requires ValidPick(p)
  {
    IntrosSize(DayPartOf(p.hour));
    Intros(DayPartOf(p.hour))[p.intro]
  }

  /** `generate_mock_content`. */
  function MockContent(p: MockPick): string
    requires ValidPick(p)
  {
    Template(p.template, TimeIntro(p), Topics[p.topic], EngagementHooks[p.hook], HashtagLine(p))
  }

  ghost predicate OccursAt(s: string, sub: string, i: int) {
    0 <= i <= |s| - |sub| && s[i..i + |sub|] == sub
  }

  ghost predicate Contains(s: string, sub: string) {
    exists i :: OccursAt(s, sub, i)
  }

  predicate StartsWith(s: string, prefix: string) {
    |prefix| <= |s| && s[..|prefix|] == prefix
  }

  predicate EndsWith(s: string, suffix: string) {
    |suffix| <= |s| && s[|s| - |suffix|..] == suffix
  }

  lemma Infix(a: string, m: string, b: string)
    ensures OccursAt(a + m + b, m, |a|)
  {
    assert (a + m + b)[|a|..|a| + |m|] == m;
  }

  /**
   * Every template contains its topic and its engagement hook and ends with
   * an empty line followed by the hashtag line; templates 0 and 3 open
   * with the intro phrase.
   */
  lemma TemplateShape(t: nat, intro: string, topic: string, hook: string, tags: string)
    requires t < TemplateCount
    ensures var r := Template(t, intro, topic, hook, tags);
      && Contains(r, topic)
      && Contains(r, hook)
      && EndsWith(r, "\n\n" + tags)
      && (t == 0 || t == 3 ==> StartsWith(r, intro))
  {
    Filled(Lead(t, intro), topic, Body(t), hook, tags);
    if t == 0 || t == 3 {
      LeadOpensWithIntro(t, intro);
      FilledOpens(Lead(t, intro), intro, topic, Body(t), hook, tags);
    }
  }

  lemma FilledOpens(lead: string, intro: string, topic: string, body: string, hook: string, tags: string)
    requires StartsWith(lead, intro)
    ensures StartsWith(lead + topic + body + "\n\n" + hook + "\n\n" + tags, intro)
  {
    var r := lead + topic + body + "\n\n" + hook + "\n\n" + tags;
    assert r == lead + (topic + body + "\n\n" + hook + "\n\n" + tags);
    assert r[..|intro|] == lead[..|intro|];
  }

  lemma LeadOpensWithIntro(t: nat, intro: string)
    requires t == 0 || t == 3
    ensures StartsWith(Lead(t, intro), intro)
  {
    if t == 0 {
      Prefix(intro, "\n\n\U{1F4A1} ");
    } else {
      Prefix(intro, "\n\nMy top 3 tools for ");
    }
  }

  lemma Filled(lead: string, topic: string, body: string, hook: string, tags: string)
    ensures var r := lead + topic + body + "\n\n" + hook + "\n\n" + tags;
      && Contains(r, topic)
      && Contains(r, hook)
      && EndsWith(r, "\n\n" + tags)
  {
    var r := lead + topic + body + "\n\n" + hook + "\n\n" + tags;
    var tail := body + "\n\n" + hook + "\n\n" + tags;
    assert r == lead + topic + tail;
    Infix(lead, topic, tail);
    var front := lead + topic + body + "\n\n";
    assert r == front + hook + ("\n\n" + tags);
    Infix(front, hook, "\n\n" + tags);
    Suffix(front + hook, "\n\n" + tags);
  }

  lemma Prefix(a: string, b: string)
    ensures StartsWith(a + b, a)
  {
    assert (a + b)[..|a|] == a;
  }

  lemma Suffix(a: string, b: string)
    ensures EndsWith(a + b, b)
  {
    assert (a + b)[|a|..] == b;
  }

  /**
   * The fallback text contains the chosen topic and engagement hook, ends
   * with an empty line and the three hashtags separated by single spaces,
   * and the two templates that open with a time-of-day intro open with a
   * phrase of the bucket of the pick's hour.
   */
  lemma MockContentShape(p: MockPick)
    requires ValidPick(p)
    ensures var r := MockContent(p);
      && Contains(r, Topics[p.topic])
      && Contains(r, EngagementHooks[p.hook])
      && EndsWith(r, "\n\n" + HashtagLine(p))
      && (p.template == 0 || p.template == 3 ==>
            StartsWith(r, TimeIntro(p)) && TimeIntro(p) in Intros(DayPartOf(p.hour)))
  {
    TemplateShape(p.template, TimeIntro(p), Topics[p.topic], EngagementHooks[p.hook], HashtagLine(p));
    IntrosSize(DayPartOf(p.hour));
  }

  /** The answer of the text-generation service, or its failure. */
  datatype Completion = Completed(text: string) | CompletionFailed

  /** `generate_content` when it returns: the stripped answer, or the fallback. */
  function GenerateContent(c: Completion, p: MockPick): string
    requires ValidPick(p)
  {
    match c
    case Completed(text) => Formatter.Strip(text)
    case CompletionFailed => MockContent(p)
  }

  /**
   * A failed generation call falls back to a non-empty template text; an
   * answer is used stripped of surrounding whitespace, with its visible
   * characters kept.
   */
  lemma GenerateContentSpec(c: Completion, p: MockPick)
    requires ValidPick(p)
    ensures var r := GenerateContent(c, p);
      && (c.CompletionFailed? ==> r == MockContent(p) && r != [] && EndsWith(r, "\n\n" + HashtagLine(p)))
      && (c.Completed? ==>
            && Formatter.Visible(r) == Formatter.Visible(c.text)
            && (r != [] ==> !Formatter.IsSpace(r[0]) && !Formatter.IsSpace(r[|r| - 1]))
            && (r == [] <==> Formatter.AllSpace(c.text)))
  {
    match c
    case Completed(text) => Formatter.StripSpec(text);
    case CompletionFailed => MockContentShape(p);
  }
}
