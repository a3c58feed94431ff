/**
 The checksum table of the server protocol, as a balanced decision tree over the index:
 four consecutive table entries to a line.
 */
module CcittTable {

  /** The table entry for one byte. */
  function CcittEntry(x: bv8): bv16 {
    if x < 0x80 then
      if x < 0x40 then
        if x < 0x20 then
          if x < 0x10 then
            if x < 0x08 then
              if x < 0x04 then
                if x < 0x02 then (if x < 0x01 then 0x0000 else 0x1021) else (if x < 0x03 then 0x2042 else 0x3063)
              else
                if x < 0x06 then (if x < 0x05 then 0x4084 else 0x50a5) else (if x < 0x07 then 0x60c6 else 0x70e7)
            else
              if x < 0x0c then
                if x < 0x0a then (if x < 0x09 then 0x8108 else 0x9129) else (if x < 0x0b then 0xa14a else 0xb16b)
              else
                if x < 0x0e then (if x < 0x0d then 0xc18c else 0xd1ad) else (if x < 0x0f then 0xe1ce else 0xf1ef)
          else
            if x < 0x18 then
              if x < 0x14 then
                if x < 0x12 then (if x < 0x11 then 0x1231 else 0x0210) else (if x < 0x13 then 0x3273 else 0x2252)
              else
                if x < 0x16 then (if x < 0x15 then 0x52b5 else 0x4294) else (if x < 0x17 then 0x72f7 else 0x62d6)
            else
              if x < 0x1c then
                if x < 0x1a then (if x < 0x19 then 0x9339 else 0x8318) else (if x < 0x1b then 0xb37b else 0xa35a)
              else
                if x < 0x1e then (if x < 0x1d then 0xd3bd else 0xc39c) else (if x < 0x1f then 0xf3ff else 0xe3de)
        else
          if x < 0x30 then
            if x < 0x28 then
              if x < 0x24 then
                if x < 0x22 then (if x < 0x21 then 0x2462 else 0x3443) else (if x < 0x23 then 0x0420 else 0x1401)
              else
                if x < 0x26 then (if x < 0x25 then 0x64e6 else 0x74c7) else (if x < 0x27 then 0x44a4 else 0x5485)
            else
              if x < 0x2c then
                if x < 0x2a then (if x < 0x29 then 0xa56a else 0xb54b) else (if x < 0x2b then 0x8528 else 0x9509)
              else
                if x < 0x2e then (if x < 0x2d then 0xe5ee else 0xf5cf) else (if x < 0x2f then 0xc5ac else 0xd58d)
          else
            if x < 0x38 then
              if x < 0x34 then
                if x < 0x32 then (if x < 0x31 then 0x3653 else 0x2672) else (if x < 0x33 then 0x1611 else 0x0630)
              else
                if x < 0x36 then (if x < 0x35 then 0x76d7 else 0x66f6) else (if x < 0x37 then 0x5695 else 0x46b4)
            else
              if x < 0x3c then
                if x < 0x3a then (if x < 0x39 then 0xb75b else 0xa77a) else (if x < 0x3b then 0x9719 else 0x8738)
              else
                if x < 0x3e then (if x < 0x3d then 0xf7df else 0xe7fe) else (if x < 0x3f then 0xd79d else 0xc7bc)
      else
        if x < 0x60 then
          if x < 0x50 then
            if x < 0x48 then
              if x < 0x44 then
                if x < 0x42 then (if x < 0x41 then 0x48c4 else 0x58e5) else (if x < 0x43 then 0x6886 else 0x78a7)
              else
                if x < 0x46 then (if x < 0x45 then 0x0840 else 0x1861) else (if x < 0x47 then 0x2802 else 0x3823)
            else
              if x < 0x4c then
                if x < 0x4a then (if x < 0x49 then 0xc9cc else 0xd9ed) else (if x < 0x4b then 0xe98e else 0xf9af)
              else
                if x < 0x4e then (if x < 0x4d then 0x8948 else 0x9969) else (if x < 0x4f then 0xa90a else 0xb92b)
          else
            if x < 0x58 then
              if x < 0x54 then
                if x < 0x52 then (if x < 0x51 then 0x5af5 else 0x4ad4) else (if x < 0x53 then 0x7ab7 else 0x6a96)
              else
                if x < 0x56 then (if x < 0x55 then 0x1a71 else 0x0a50) else (if x < 0x57 then 0x3a33 else 0x2a12)
            else
              if x < 0x5c then
                if x < 0x5a then (if x < 0x59 then 0xdbfd else 0xcbdc) else (if x < 0x5b then 0xfbbf else 0xeb9e)
              else
                if x < 0x5e then (if x < 0x5d then 0x9b79 else 0x8b58) else (if x < 0x5f then 0xbb3b else 0xab1a)
        else
          if x < 0x70 then
            if x < 0x68 then
              if x < 0x64 then
                if x < 0x62 then (if x < 0x61 then 0x6ca6 else 0x7c87) else (if x < 0x63 then 0x4ce4 else 0x5cc5)
              else
                if x < 0x66 then (if x < 0x65 then 0x2c22 else 0x3c03) else (if x < 0x67 then 0x0c60 else 0x1c41)
            else
              if x < 0x6c then
                if x < 0x6a then (if x < 0x69 then 0xedae else 0xfd8f) else (if x < 0x6b then 0xcdec else 0xddcd)
              else
                if x < 0x6e then (if x < 0x6d then 0xad2a else 0xbd0b) else (if x < 0x6f then 0x8d68 else 0x9d49)
          else
            if x < 0x78 then
              if x < 0x74 then
                if x < 0x72 then (if x < 0x71 then 0x7e97 else 0x6eb6) else (if x < 0x73 then 0x5ed5 else 0x4ef4)
              else
                if x < 0x76 then (if x < 0x75 then 0x3e13 else 0x2e32) else (if x < 0x77 then 0x1e51 else 0x0e70)
            else
              if x < 0x7c then
                if x < 0x7a then (if x < 0x79 then 0xff9f else 0xefbe) else (if x < 0x7b then 0xdfdd else 0xcffc)
              else
                if x < 0x7e then (if x < 0x7d then 0xbf1b else 0xaf3a) else (if x < 0x7f then 0x9f59 else 0x8f78)
    else
      if x < 0xc0 then
        if x < 0xa0 then
          if x < 0x90 then
            if x < 0x88 then
              if x < 0x84 then
                if x < 0x82 then (if x < 0x81 then 0x9188 else 0x81a9) else (if x < 0x83 then 0xb1ca else 0xa1eb)
              else
                if x < 0x86 then (if x < 0x85 then 0xd10c else 0xc12d) else (if x < 0x87 then 0xf14e else 0xe16f)
            else
              if x < 0x8c then
                if x < 0x8a then (if x < 0x89 then 0x1080 else 0x00a1) else (if x < 0x8b then 0x30c2 else 0x20e3)
              else
                if x < 0x8e then (if x < 0x8d then 0x5004 else 0x4025) else (if x < 0x8f then 0x7046 else 0x6067)
          else
            if x < 0x98 then
              if x < 0x94 then
                if x < 0x92 then (if x < 0x91 then 0x83b9 else 0x9398) else (if x < 0x93 then 0xa3fb else 0xb3da)
              else
                if x < 0x96 then (if x < 0x95 then 0xc33d else 0xd31c) else (if x < 0x97 then 0xe37f else 0xf35e)
            else
              if x < 0x9c then
                if x < 0x9a then (if x < 0x99 then 0x02b1 else 0x1290) else (if x < 0x9b then 0x22f3 else 0x32d2)
              else
                if x < 0x9e then (if x < 0x9d then 0x4235 else 0x5214) else (if x < 0x9f then 0x6277 else 0x7256)
        else
          if x < 0xb0 then
            if x < 0xa8 then
              if x < 0xa4 then
                if x < 0xa2 then (if x < 0xa1 then 0xb5ea else 0xa5cb) else (if x < 0xa3 then 0x95a8 else 0x8589)
              else
                if x < 0xa6 then (if x < 0xa5 then 0xf56e else 0xe54f) else (if x < 0xa7 then 0xd52c else 0xc50d)
            else
              if x < 0xac then
                if x < 0xaa then (if x < 0xa9 then 0x34e2 else 0x24c3) else (if x < 0xab then 0x14a0 else 0x0481)
              else
                if x < 0xae then (if x < 0xad then 0x7466 else 0x6447) else (if x < 0xaf then 0x5424 else 0x4405)
          else
            if x < 0xb8 then
              if x < 0xb4 then
                if x < 0xb2 then (if x < 0xb1 then 0xa7db else 0xb7fa) else (if x < 0xb3 then 0x8799 else 0x97b8)
              else
                if x < 0xb6 then (if x < 0xb5 then 0xe75f else 0xf77e) else (if x < 0xb7 then 0xc71d else 0xd73c)
            else
              if x < 0xbc then
                if x < 0xba then (if x < 0xb9 then 0x26d3 else 0x36f2) else (if x < 0xbb then 0x0691 else 0x16b0)
              else
                if x < 0xbe then (if x < 0xbd then 0x6657 else 0x7676) else (if x < 0xbf then 0x4615 else 0x5634)
      else
        if x < 0xe0 then
          if x < 0xd0 then
            if x < 0xc8 then
              if x < 0xc4 then
                if x < 0xc2 then (if x < 0xc1 then 0xd94c else 0xc96d) else (if x < 0xc3 then 0xf90e else 0xe92f)
              else
                if x < 0xc6 then (if x < 0xc5 then 0x99c8 else 0x89e9) else (if x < 0xc7 then 0xb98a else 0xa9ab)
            else
              if x < 0xcc then
                if x < 0xca then (if x < 0xc9 then 0x5844 else 0x4865) else (if x < 0xcb then 0x7806 else 0x6827)
              else
                if x < 0xce then (if x < 0xcd then 0x18c0 else 0x08e1) else (if x < 0xcf then 0x3882 else 0x28a3)
          else
            if x < 0xd8 then
              if x < 0xd4 then
                if x < 0xd2 then (if x < 0xd1 then 0xcb7d else 0xdb5c) else (if x < 0xd3 then 0xeb3f else 0xfb1e)
              else
                if x < 0xd6 then (if x < 0xd5 then 0x8bf9 else 0x9bd8) else (if x < 0xd7 then 0xabbb else 0xbb9a)
            else
              if x < 0xdc then
                if x < 0xda then (if x < 0xd9 then 0x4a75 else 0x5a54) else (if x < 0xdb then 0x6a37 else 0x7a16)
              else
                if x < 0xde then (if x < 0xdd then 0x0af1 else 0x1ad0) else (if x < 0xdf then 0x2ab3 else 0x3a92)
        else
          if x < 0xf0 then
            if x < 0xe8 then
              if x < 0xe4 then
                if x < 0xe2 then (if x < 0xe1 then 0xfd2e else 0xed0f) else (if x < 0xe3 then 0xdd6c else 0xcd4d)
              else
                if x < 0xe6 then (if x < 0xe5 then 0xbdaa else 0xad8b) else (if x < 0xe7 then 0x9de8 else 0x8dc9)
            else
              if x < 0xec then
                if x < 0xea then (if x < 0xe9 then 0x7c26 else 0x6c07) else (if x < 0xeb then 0x5c64 else 0x4c45)
              else
                if x < 0xee then (if x < 0xed then 0x3ca2 else 0x2c83) else (if x < 0xef then 0x1ce0 else 0x0cc1)
          else
            if x < 0xf8 then
              if x < 0xf4 then
                if x < 0xf2 then (if x < 0xf1 then 0xef1f else 0xff3e) else (if x < 0xf3 then 0xcf5d else 0xdf7c)
              else
                if x < 0xf6 then (if x < 0xf5 then 0xaf9b else 0xbfba) else (if x < 0xf7 then 0x8fd9 else 0x9ff8)
            else
              if x < 0xfc then
                if x < 0xfa then (if x < 0xf9 then 0x6e17 else 0x7e36) else (if x < 0xfb then 0x4e55 else 0x5e74)
              else
                if x < 0xfe then (if x < 0xfd then 0x2e93 else 0x3eb2) else (if x < 0xff then 0x0ed1 else 0x1ef0)
  }
}
