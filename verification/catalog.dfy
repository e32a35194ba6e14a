/** The fixed, closed catalog of 29 languages (backend/models/database.py
    `LANGUAGES`) and the bilingual display names that both the server
    (`/api/languages`) and the client (`getBilingualLanguageName`) carry. */
module Catalog {

  /** The catalog in its declared order; 'english' comes first. */
  const Languages: seq<string> := [
    "english", "chinese", "thai", "czech", "slovak", "italian", "polish",
    "latin", "dutch", "portuguese", "greek", "balkan", "bulgarian", "turkish",
    "french", "german", "ukrainian", "russian", "south_african", "arabic",
    "norwegian", "finnish", "macedonian", "estonian", "slovenian", "indonesian", "swedish",
    "japanese", "korean"
  ]

  const English: string := "english"

  predicate InCatalog(lang: string) {
    lang in Languages
  }

  /** A display name in both UI locales. */
  datatype Names = Names(zh: string, en: string)

  /** The display-name table, keyed by language code. */
  const NameTable: map<string, Names> := map[
    "english" := Names("英文", "English"),
    "chinese" := Names("中文", "Chinese"),
    "thai" := Names("泰语", "Thai"),
    "czech" := Names("捷克语", "Czech"),
    "slovak" := Names("斯洛伐克语", "Slovak"),
    "italian" := Names("意大利语", "Italian"),
    "polish" := Names("波兰语", "Polish"),
    "latin" := Names("拉丁语", "Latin"),
    "dutch" := Names("荷兰语", "Dutch"),
    "portuguese" := Names("葡萄牙语", "Portuguese"),
    "greek" := Names("希腊语", "Greek"),
    "balkan" := Names("巴尔干语", "Balkan"),
    "bulgarian" := Names("保加利亚语", "Bulgarian"),
    "turkish" := Names("土耳其语", "Turkish"),
    "french" := Names("法语", "French"),
    "german" := Names("德语", "German"),
    "ukrainian" := Names("乌克兰语", "Ukrainian"),
    "russian" := Names("俄语", "Russian"),
    "south_african" := Names("南非语", "South African"),
    "arabic" := Names("阿拉伯语", "Arabic"),
    "norwegian" := Names("挪威语", "Norwegian"),
    "finnish" := Names("芬兰语", "Finnish"),
    "macedonian" := Names("马其顿语", "Macedonian"),
    "estonian" := Names("爱沙尼亚语", "Estonian"),
    "slovenian" := Names("斯洛文尼亚语", "Slovenian"),
    "indonesian" := Names("印尼语", "Indonesian"),
    "swedish" := Names("瑞典语", "Swedish"),
    "japanese" := Names("日语", "Japanese"),
    "korean" := Names("韩语", "Korean")
  ]

  lemma EnglishOnlyFirst()
    ensures Languages[0] == English && English !in Languages[1..]
  {
  }

  /** The catalog has 29 pairwise distinct entries and starts with english;
      the name table covers exactly the catalog. */
  lemma CatalogShape()
    ensures |Languages| == 29
    ensures Languages[0] == English
    ensures forall i, j :: 0 <= i < j < |Languages| ==> Languages[i] != Languages[j]
    ensures NameTable.Keys == set l | l in Languages
  {
  }
}
