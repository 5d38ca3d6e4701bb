/** The address of the daily index of the "Actos inscritos" section of the BORME website. */
module BormeWebsite {
  import opened Strings
  import opened Dates

  const UrlPrefix: string := "https://www.boe.es/borme/dias/"
  const UrlSuffix: string := "/index.php?s=a1"

  /**
   * `construct_borme_daily_url`: the prefix, the day as YYYY/MM/DD with month and day padded to
   * two digits, and the suffix.
   */
  function ConstructBormeDailyUrl(day: Date): (url: string)
    requires day.Valid()
    ensures |url| == 55
    ensures url[..30] == UrlPrefix && url[40..] == UrlSuffix
    ensures url[30..40] == FormatDate(day, '/')
    ensures url[34] == '/' && url[37] == '/'
    ensures AllDigits(url[30..34]) && AllDigits(url[35..37]) && AllDigits(url[38..40])
    ensures DigitsValue(url[30..34]) == day.year && DigitsValue(url[35..37]) == day.month
      && DigitsValue(url[38..40]) == day.day
  {
    var middle := FormatDate(day, '/');
    var url := UrlPrefix + middle + UrlSuffix;
    assert url[30..40] == middle;
    assert url[30..34] == middle[..4] && url[35..37] == middle[5..7] && url[38..40] == middle[8..];
    url
  }

  /** Distinct days have distinct addresses. */
  lemma {:induction false} DailyUrlInjective(d1: Date, d2: Date)
    requires d1.Valid() && d2.Valid() && d1 != d2
    ensures ConstructBormeDailyUrl(d1) != ConstructBormeDailyUrl(d2)
  {
    if ConstructBormeDailyUrl(d1) == ConstructBormeDailyUrl(d2) {
      FormatDateInjective(d1, d2, '/');
    }
  }
}
