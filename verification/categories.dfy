/** The title-based category heuristic: an ordered table of categories,
    each with its list of title prefixes, scanned top to bottom. */
module Categories {
  import opened Text

  /** The category given to a title no table entry recognises. */
  const DefaultCategory := "用户频道"

  /** Category name and its keyword prefixes, in declared order. */
  datatype Entry = Entry(category: string, prefixes: seq<string>)

  const Table: seq<Entry> := [
    Entry("央视", ["CCTV", "央视"]),
    Entry("地方", ["北京", "上海", "广东", "江苏", "浙江", "湖南", "湖北", "河南", "河北", "山东",
                   "山西", "陕西", "甘肃", "青海", "宁夏", "新疆", "西藏", "四川", "重庆", "云南",
                   "贵州", "广西", "海南", "辽宁", "吉林", "黑龙江", "安徽", "福建", "江西", "内蒙古",
                   "天津", "兵团"]),
    Entry("港澳台", ["凤凰", "翡翠", "明珠", "本港", "亚视", "中天", "东森", "TVBS", "华视", "中视",
                     "民视", "公视", "三立", "八大", "台视"]),
    Entry("电影", ["电影", "Movie", "Film"]),
    Entry("电视剧", ["电视剧", "Drama", "Series"]),
    Entry("综艺", ["综艺", "Variety"]),
    Entry("体育", ["体育", "Sports", "NBA", "足球", "篮球", "英超", "西甲", "意甲", "德甲", "欧冠"]),
    Entry("新闻", ["新闻", "News"]),
    Entry("少儿", ["少儿", "动画", "Cartoon", "Kids"]),
    Entry("音乐", ["音乐", "Music", "MTV"]),
    Entry("纪实", ["纪实", "纪录", "Documentary"]),
    Entry("科教", ["科教", "科学", "教育", "Science", "Education"])
  ]

  /** Every category the heuristic can produce. */
  predicate IsKnownCategory(c: string)
  {
    c == DefaultCategory || exists i :: 0 <= i < |Table| && Table[i].category == c
  }

  /** The title starts with one of the entry's prefixes. */
  predicate Recognises(e: Entry, title: string)
  {
    exists p :: p in e.prefixes && StartsWith(title, p)
  }

  /** Index of the first entry at or after `from` that recognises `title`. */
  function FirstRecognising(table: seq<Entry>, title: string, from: nat): (r: Option<nat>)
    requires from <= |table|
    ensures r.Some? ==> from <= r.value < |table| && Recognises(table[r.value], title)
    ensures r.Some? ==> forall j :: from <= j < r.value ==> !Recognises(table[j], title)
    ensures r.None? ==> forall j :: from <= j < |table| ==> !Recognises(table[j], title)
    decreases |table| - from
  {
    if from == |table| then None
    else if Recognises(table[from], title) then Some(from)
    else FirstRecognising(table, title, from + 1)
  }

  /** `extractCategoryFromTitle`: the category of the first table entry with a
      prefix of `title`, else the default. */
  function CategoryFromTitle(title: string): (r: string)
    ensures r != ""
    ensures IsKnownCategory(r)
    ensures r == DefaultCategory <==> forall j :: 0 <= j < |Table| ==> !Recognises(Table[j], title)
    ensures r != DefaultCategory ==>
              exists j :: 0 <= j < |Table| && Table[j].category == r && Recognises(Table[j], title)
                          && forall i :: 0 <= i < j ==> !Recognises(Table[i], title)
  {
    assert forall j :: 0 <= j < |Table| ==> Table[j].category != DefaultCategory && Table[j].category != "";
    match FirstRecognising(Table, title, 0)
    case Some(j) => Table[j].category
    case None => DefaultCategory
  }
}
